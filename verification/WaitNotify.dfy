/**
  The hand-off between ring writers and the process that waits for a ring to
  fill: a flag, a compare-and-exchange and a wait queue, one waiter per CPU.

  Every shared access is one step; steps of the waiter, of any number of
  writers and of any number of interrupters interleave freely.  The waiter is
  also the ring's only consumer, so while it is inside the wait call the ring
  can become almost full but cannot stop being so.  Writers that do not notify
  may fill the ring at any time.
 */
module WaitNotify {

  /** `_iotrace_ioctl`, WAIT_FOR_TRACES, with `wait_event_interruptible` spelled
      out: a first test of the condition, then queue, test again, sleep. */
  datatype Waiter =
    | Outside
    | Entering     // about to set the flag
    | TestFull     // first test: is the ring almost full?
    | TestFlag     // first test: has the flag been reset?
    | Queueing     // about to put itself on the wait queue
    | CheckFull    // queued: is the ring almost full?
    | CheckFlag    // queued: has the flag been reset?
    | Sleeping     // in schedule()
    | Leaving      // about to reset the flag and return

  /** `iotrace_notify_of_new_events`, after the event is committed. */
  datatype Writer = Quiet | Committed | SawFull | Waking

  /** INTERRUPT_WAIT_FOR_TRACES */
  datatype Interrupter = Away | Resetting | Ringing

  datatype State = State(
    waiter: Waiter,
    queued: bool,     // on the wait queue, not yet woken
    flag: bool,       // waiting_for_trace
    full: bool,       // octf_trace_is_almost_full
    noted: bool,      // a notifying writer committed an event with the ring almost full
    writers: seq<Writer>,
    interrupters: seq<Interrupter>)

  datatype Step =
    | Wait                   // the waiter's next step
    | Signal                 // a signal ends the sleep
    | Consume                // the consumer empties the ring
    | Fill                   // a write by a writer that does not notify
    | Write(w: nat, fills: bool)
    | Notify(w: nat)
    | Interrupt(i: nat)

  function Init(writers: nat, interrupters: nat): State {
    State(Outside, false, false, false, false, seq(writers, _ => Quiet), seq(interrupters, _ => Away))
  }

  predicate Inside(s: State) {
    s.waiter != Outside
  }

  function WaiterStep(s: State): State {
    match s.waiter
    case Outside => s.(waiter := Entering)
    case Entering => s.(waiter := TestFull, flag := true)
    case TestFull => s.(waiter := if s.full then Leaving else TestFlag)
    case TestFlag => s.(waiter := if s.flag then Queueing else Leaving)
    case Queueing => s.(waiter := CheckFull, queued := true)
    case CheckFull => s.(waiter := if s.full then Leaving else CheckFlag)
    case CheckFlag => s.(waiter := if s.flag then Sleeping else Leaving)
    case Sleeping => if s.queued then s else s.(waiter := Queueing)
    case Leaving => s.(waiter := Outside, queued := false, flag := false)
  }

  /** `wake_up`: takes the waiter off the queue, if it is there. */
  function WakeUp(s: State): State {
    s.(queued := false)
  }

  function WriteStep(s: State, w: nat, fills: bool): State {
    if w >= |s.writers| || s.writers[w] != Quiet then s
    else s.(writers := s.writers[w := Committed], full := s.full || fills, noted := s.noted || s.full || fills)
  }

  function NotifyStep(s: State, w: nat): State {
    if w >= |s.writers| then s
    else
      match s.writers[w]
      case Quiet => s
      case Committed => s.(writers := s.writers[w := if s.full then SawFull else Quiet])
      case SawFull => s.(writers := s.writers[w := if s.flag then Waking else Quiet], flag := false)
      case Waking => WakeUp(s).(writers := s.writers[w := Quiet])
  }

  function InterruptStep(s: State, i: nat): State {
    if i >= |s.interrupters| then s
    else
      match s.interrupters[i]
      case Away => s.(interrupters := s.interrupters[i := Resetting])
      case Resetting => s.(interrupters := s.interrupters[i := Ringing], flag := false)
      case Ringing => WakeUp(s).(interrupters := s.interrupters[i := Away])
  }

  function Next(s: State, st: Step): State {
    match st
    case Wait => WaiterStep(s)
    case Signal => if s.waiter == Sleeping then s.(waiter := Leaving, queued := false) else s
    case Consume => if Inside(s) then s else s.(full := false, noted := false)
    case Fill => s.(full := true)
    case Write(w, fills) => WriteStep(s, w, fills)
    case Notify(w) => NotifyStep(s, w)
    case Interrupt(i) => InterruptStep(s, i)
  }

  function Run(s: State, steps: seq<Step>): State
    decreases |steps|
  {
    if steps == [] then s else Run(Next(s, steps[0]), steps[1..])
  }

  // --------------------------------------------------------------- invariants

  /** Somebody is about to wake the queue. */
  ghost predicate WakePending(s: State) {
    || (exists w :: 0 <= w < |s.writers| && s.writers[w] == Waking)
    || (exists i :: 0 <= i < |s.interrupters| && s.interrupters[i] == Ringing)
  }

  /** A notifying writer is between its commit and its compare-and-exchange. */
  ghost predicate NotifyPending(s: State) {
    exists w :: 0 <= w < |s.writers| && (s.writers[w] == Committed || s.writers[w] == SawFull)
  }

  /** The waiter set its flag, found the ring not almost full, and has not
      looked again. */
  predicate PastFullTest(s: State) {
    s.waiter == TestFlag || s.waiter == Queueing || s.waiter == CheckFlag || s.waiter == Sleeping
  }

  ghost predicate Inv(s: State) {
    && (s.queued ==> s.waiter == CheckFull || s.waiter == CheckFlag || s.waiter == Sleeping || s.waiter == Leaving)
    && (s.waiter == Sleeping && s.queued && !s.flag ==> WakePending(s))
    && (PastFullTest(s) && s.flag && s.full && s.noted ==> NotifyPending(s))
    && (s.noted ==> s.full)
  }

  lemma {:induction false} WaiterInv(s: State)
    requires Inv(s)
    ensures Inv(WaiterStep(s))
  {}

  lemma {:induction false} WriteInv(s: State, w: nat, fills: bool)
    requires Inv(s)
    ensures Inv(WriteStep(s, w, fills))
  {
    var t := WriteStep(s, w, fills);
    if t != s {
      assert t.writers[w] == Committed;
      KeptPending(s, t, w);
    }
  }

  /** Whoever else was about to act still is. */
  lemma {:induction false} KeptPending(s: State, t: State, w: nat)
    requires w < |s.writers| == |t.writers|
    requires t.writers == s.writers[w := t.writers[w]] && t.interrupters == s.interrupters
    ensures WakePending(s) && s.writers[w] != Waking ==> WakePending(t)
    ensures NotifyPending(s) && s.writers[w] != Committed && s.writers[w] != SawFull ==> NotifyPending(t)
    ensures NotifyPending(s) && t.writers[w] == SawFull ==> NotifyPending(t)
  {
    if v :| 0 <= v < |s.writers| && v != w && s.writers[v] == Waking {
      assert t.writers[v] == Waking;
    }
    if v :| 0 <= v < |s.writers| && v != w && (s.writers[v] == Committed || s.writers[v] == SawFull) {
      assert t.writers[v] == s.writers[v];
    }
  }

  lemma {:induction false} NotifyInv(s: State, w: nat)
    requires Inv(s)
    ensures Inv(NotifyStep(s, w))
  {
    var t := NotifyStep(s, w);
    if t != s {
      KeptPending(s, t, w);
      if t.writers[w] == Waking { assert WakePending(t); }
    }
  }

  lemma {:induction false} InterruptInv(s: State, i: nat)
    requires Inv(s)
    ensures Inv(InterruptStep(s, i))
  {
    var t := InterruptStep(s, i);
    if t != s {
      assert t.writers == s.writers;
      if t.interrupters[i] == Ringing { assert WakePending(t); }
      if t.interrupters[i] == Resetting && WakePending(s) {
        if k :| 0 <= k < |s.interrupters| && s.interrupters[k] == Ringing {
          assert t.interrupters[k] == Ringing;
        }
      }
    }
  }

  lemma {:induction false} StepInv(s: State, st: Step)
    requires Inv(s)
    ensures Inv(Next(s, st))
  {
    match st
    case Wait => WaiterInv(s);
    case Signal =>
    case Consume =>
    case Fill => assert Next(s, st).writers == s.writers && Next(s, st).interrupters == s.interrupters;
    case Write(w, fills) => WriteInv(s, w, fills);
    case Notify(w) => NotifyInv(s, w);
    case Interrupt(i) => InterruptInv(s, i);
  }

  lemma {:induction false} RunInv(s: State, steps: seq<Step>)
    requires Inv(s)
    ensures Inv(Run(s, steps))
    decreases |steps|
  {
    if steps != [] {
      StepInv(s, steps[0]);
      RunInv(Next(s, steps[0]), steps[1..]);
    }
  }

  /** No lost wake-up, in every reachable state: a sleeping waiter whose flag was
      reset still has a wake coming, and one whose ring a notifying writer left
      almost full still has a writer that will reset the flag. */
  lemma {:induction false} NoLostWakeup(writers: nat, interrupters: nat, steps: seq<Step>)
    ensures var s := Run(Init(writers, interrupters), steps);
            s.waiter == Sleeping && s.queued ==>
              && (!s.flag ==> WakePending(s))
              && (s.flag && s.full && s.noted ==> NotifyPending(s))
  {
    RunInv(Init(writers, interrupters), steps);
  }

  // ----------------------------------------------------------------- release

  /** The waiter set its flag and somebody has reset it since. */
  predicate Released(s: State) {
    s.waiter != Outside && s.waiter != Entering && !s.flag
  }

  /** Steps between here and the return from the wait call. */
  function Distance(s: State): nat {
    match s.waiter
    case Sleeping => if s.queued then 7 else 6
    case Queueing => 5
    case CheckFull => 4
    case CheckFlag => 3
    case TestFull => 4
    case TestFlag => 3
    case Leaving => 1
    case Outside => 0
    case Entering => 0
  }

  /** A released waiter returns: no step of anyone undoes the release or moves
      it away from returning, its own steps bring it closer, and when it cannot
      step a wake is pending whose step brings it closer. */
  lemma {:induction false} ReleasedReturns(s: State, st: Step)
    requires Inv(s) && Released(s)
    ensures var t := Next(s, st);
            && (Released(t) || t.waiter == Outside)
            && Distance(t) <= Distance(s)
            && (st.Wait? && !(s.waiter == Sleeping && s.queued) ==> Distance(t) < Distance(s))
            && (s.waiter == Sleeping && s.queued ==> WakePending(s))
            && (s.waiter == Sleeping && s.queued && Wakes(s, st) ==> Distance(t) < Distance(s))
  {}

  /** The step is the wake-up of a writer or an interrupter. */
  predicate Wakes(s: State, st: Step) {
    || (st.Notify? && st.w < |s.writers| && s.writers[st.w] == Waking)
    || (st.Interrupt? && st.i < |s.interrupters| && s.interrupters[st.i] == Ringing)
  }

  /** The waiter has not returned anywhere in the run. */
  ghost predicate NotYetBack(s: State, steps: seq<Step>) {
    forall k :: 0 <= k <= |steps| ==> Run(s, steps[..k]).waiter != Outside
  }

  /** In any run from a released state the waiter makes at most `Distance` steps
      that find it awake before it has returned once. */
  lemma {:induction false} ReleaseBound(s: State, steps: seq<Step>)
    requires Inv(s) && Released(s)
    requires NotYetBack(s, steps)
    ensures Released(Run(s, steps))
    ensures AwakeSteps(s, steps) + Distance(Run(s, steps)) <= Distance(s)
    decreases |steps|
  {
    if steps != [] {
      var t := Next(s, steps[0]);
      StepInv(s, steps[0]);
      ReleasedReturns(s, steps[0]);
      assert steps[..1] == [steps[0]] && Run(s, steps[..1]) == t;
      forall k | 0 <= k <= |steps[1..]| ensures Run(t, steps[1..][..k]).waiter != Outside {
        assert steps[..k + 1][1..] == steps[1..][..k];
      }
      ReleaseBound(t, steps[1..]);
    }
  }

  /** The waiter's own steps in a run, not counting turns spent asleep. */
  function AwakeSteps(s: State, steps: seq<Step>): nat
    decreases |steps|
  {
    if steps == [] then 0
    else
      (if steps[0].Wait? && !(s.waiter == Sleeping && s.queued) then 1 else 0)
      + AwakeSteps(Next(s, steps[0]), steps[1..])
  }

  // ------------------------------------------------- what causes each change

  /** The step resets the flag for the waiter: an interrupt, or a writer that saw
      the ring almost full. */
  predicate Resets(s: State, st: Step) {
    || (st.Interrupt? && st.i < |s.interrupters| && s.interrupters[st.i] == Resetting)
    || (st.Notify? && st.w < |s.writers| && s.writers[st.w] == SawFull)
  }

  /** Between the waiter's flag store and its return. */
  predicate InCall(s: State) {
    s.waiter != Outside && s.waiter != Entering
  }

  /** The waiter starts to leave only by a signal, or on finding the ring almost
      full or its flag reset, and only then does it return. */
  lemma {:induction false} LeavesBecause(s: State, st: Step)
    ensures var t := Next(s, st);
            && (t.waiter == Leaving && s.waiter != Leaving ==>
                  (st.Signal? && s.waiter == Sleeping) || (st.Wait? && InCall(s) && (s.full || !s.flag)))
            && (t.waiter == Outside && Inside(s) ==> st.Wait? && s.waiter == Leaving)
            && (InCall(t) && !InCall(s) ==> t.flag)
  {}

  /** The flag, the ring and the queue each change only by the steps for that. */
  lemma {:induction false} FlagChanges(s: State, st: Step)
    ensures var t := Next(s, st);
            && (s.flag && !t.flag ==> Resets(s, st) || (st.Wait? && s.waiter == Leaving))
            && (t.flag && !s.flag ==> st.Wait? && s.waiter == Entering)
  {}

  lemma {:induction false} RingChanges(s: State, st: Step)
    ensures var t := Next(s, st);
            && (s.full && !t.full ==> st.Consume? && !Inside(s))
            && (t.full && !s.full ==> st.Fill? || (st.Write? && st.fills))
            && (s.queued && !t.queued ==> Wakes(s, st) || st.Signal? || (st.Wait? && s.waiter == Leaving))
  {}

  /** A writer goes on to the exchange only if it committed and then saw the ring
      almost full. */
  lemma {:induction false} SeesFull(s: State, st: Step, w: nat)
    requires w < |s.writers| && s.writers[w] != SawFull
    ensures var t := Next(s, st);
            |t.writers| == |s.writers| &&
            (t.writers[w] == SawFull ==> st == Notify(w) && s.writers[w] == Committed && s.full)
  {
    if !st.Write? && !st.Notify? { assert Next(s, st).writers == s.writers; }
  }

  lemma {:induction false} RunLast(s: State, steps: seq<Step>)
    requires steps != []
    ensures Run(s, steps) == Next(Run(s, steps[..|steps| - 1]), steps[|steps| - 1])
    decreases |steps|
  {
    if |steps| > 1 {
      RunLast(Next(s, steps[0]), steps[1..]);
      assert steps[1..][..|steps| - 2] == steps[..|steps| - 1][1..];
    }
  }

  /** At step `j` of the run the flag is reset, and from there to the end of the
      run the waiter is in the same call. */
  ghost predicate ResetAt(s: State, steps: seq<Step>, j: nat) {
    && j < |steps| && Resets(Run(s, steps[..j]), steps[j])
    && forall l :: j <= l <= |steps| ==> InCall(Run(s, steps[..l]))
  }

  /** A released waiter was released in this call. */
  lemma {:induction false} ReleaseHasCause(writers: nat, interrupters: nat, steps: seq<Step>) returns (j: nat)
    requires Released(Run(Init(writers, interrupters), steps))
    ensures ResetAt(Init(writers, interrupters), steps, j)
    decreases |steps|
  {
    var s, k := Init(writers, interrupters), |steps| - 1;
    var p := Run(s, steps[..k]);
    RunLast(s, steps);
    LeavesBecause(p, steps[k]);
    FlagChanges(p, steps[k]);
    assert steps[..|steps|] == steps;
    if Released(p) {
      j := ReleaseHasCause(writers, interrupters, steps[..k]);
      ResetLater(s, steps, j);
    } else {
      j := k;
    }
  }

  lemma {:induction false} ResetLater(s: State, steps: seq<Step>, j: nat)
    requires steps != [] && ResetAt(s, steps[..|steps| - 1], j) && InCall(Run(s, steps))
    ensures ResetAt(s, steps, j)
  {
    var k := |steps| - 1;
    forall l | j <= l <= |steps| ensures InCall(Run(s, steps[..l])) {
      if l <= k { assert steps[..k][..l] == steps[..l]; } else { assert steps[..l] == steps; }
    }
    assert steps[..k][..j] == steps[..j];
  }

  /** Writer `w` saw the ring almost full at step `i` of the run, after a commit. */
  ghost predicate SawFullAt(s: State, steps: seq<Step>, w: nat, i: nat) {
    && i < |steps| && steps[i] == Notify(w)
    && var p := Run(s, steps[..i]);
       p.full && w < |p.writers| && p.writers[w] == Committed
  }

  /** A writer that resets the flag saw the ring almost full before. */
  lemma {:induction false} NoticeHasCause(writers: nat, interrupters: nat, steps: seq<Step>, w: nat) returns (i: nat)
    requires var t := Run(Init(writers, interrupters), steps); w < |t.writers| && t.writers[w] == SawFull
    ensures SawFullAt(Init(writers, interrupters), steps, w, i)
    decreases |steps|
  {
    var s, k := Init(writers, interrupters), |steps| - 1;
    var p := Run(s, steps[..k]);
    RunLast(s, steps);
    SameWriters(p, steps[k]);
    if p.writers[w] == SawFull {
      i := NoticeHasCause(writers, interrupters, steps[..k], w);
      assert steps[..k][..i] == steps[..i];
    } else {
      SeesFull(p, steps[k], w);
      i := k;
    }
  }

  lemma {:induction false} SameWriters(s: State, st: Step)
    ensures |Next(s, st).writers| == |s.writers|
  {
    if !st.Write? && !st.Notify? { assert Next(s, st).writers == s.writers; }
  }

  /** Why a waiter returns, in every run: a signal, the ring almost full when it
      looked, or a reset of the flag since its own store in this call. */
  lemma {:induction false} ReturnHasCause(writers: nat, interrupters: nat, steps: seq<Step>)
    requires steps != []
    ensures var s, k := Init(writers, interrupters), |steps| - 1;
            var p := Run(s, steps[..k]);
            Run(s, steps).waiter == Leaving && p.waiter != Leaving ==>
              steps[k].Signal? || p.full || exists j :: ResetAt(s, steps[..k], j)
  {
    var s, k := Init(writers, interrupters), |steps| - 1;
    var p := Run(s, steps[..k]);
    RunLast(s, steps);
    LeavesBecause(p, steps[k]);
    if Released(p) {
      var j := ReleaseHasCause(writers, interrupters, steps[..k]);
    }
  }

  /** At step `j` of the run a notifying writer commits and the ring is almost full. */
  ghost predicate FilledAt(s: State, steps: seq<Step>, j: nat) {
    && j < |steps| && steps[j].Write?
    && var p := Run(s, steps[..j]);
       steps[j].w < |p.writers| && p.writers[steps[j].w] == Quiet && (p.full || steps[j].fills)
  }

  /** After step `j` the consumer has not emptied the ring. */
  ghost predicate NotEmptiedSince(s: State, steps: seq<Step>, j: nat) {
    forall l :: j < l < |steps| && steps[l].Consume? ==> Inside(Run(s, steps[..l]))
  }

  lemma {:induction false} StaysFull(s: State, steps: seq<Step>, j: nat)
    requires FilledAt(s, steps, j) && NotEmptiedSince(s, steps, j)
    ensures Run(s, steps).full && Run(s, steps).noted
    decreases |steps|
  {
    var k := |steps| - 1;
    RunLast(s, steps);
    if j < k {
      var less := steps[..k];
      assert less[..j] == steps[..j];
      forall l | j < l < k && less[l].Consume? ensures Inside(Run(s, less[..l])) {
        assert steps[l].Consume? && less[..l] == steps[..l];
      }
      StaysFull(s, less, j);
    }
  }

  /** So in every run: once a notifying writer has left the ring almost full, and
      until the consumer empties it, a waiter asleep with its flag set has a writer
      on its way to reset the flag. */
  lemma {:induction false} NoticeOnItsWay(writers: nat, interrupters: nat, steps: seq<Step>, j: nat)
    requires FilledAt(Init(writers, interrupters), steps, j)
    requires NotEmptiedSince(Init(writers, interrupters), steps, j)
    ensures var s := Run(Init(writers, interrupters), steps);
            s.full && (s.waiter == Sleeping && s.queued && s.flag ==> NotifyPending(s))
  {
    StaysFull(Init(writers, interrupters), steps, j);
    RunInv(Init(writers, interrupters), steps);
  }

  // --------------------------------------------------- one interrupt or notice

  /** The waiter's next `k` steps with nobody else moving. */
  function Alone(s: State, k: nat): State
    decreases k
  {
    if k == 0 then s else Alone(WaiterStep(s), k - 1)
  }

  ghost predicate ReturnsAlone(s: State) {
    exists k: nat :: Alone(s, k).waiter == Outside
  }

  lemma {:induction false} ReturnsLater(s: State)
    requires ReturnsAlone(WaiterStep(s))
    ensures ReturnsAlone(s)
  {
    var k: nat :| Alone(WaiterStep(s), k).waiter == Outside;
    assert Alone(s, k + 1).waiter == Outside;
  }

  /** A released waiter that is off the queue needs nobody's help. */
  lemma {:induction false} AwakeReturns(s: State)
    requires Released(s) && !(s.waiter == Sleeping && s.queued)
    ensures ReturnsAlone(s)
    decreases Distance(s)
  {
    var t := WaiterStep(s);
    if t.waiter == Outside {
      assert Alone(t, 0).waiter == Outside;
    } else {
      AwakeReturns(t);
    }
    ReturnsLater(s);
  }

  lemma {:induction false} FullReturns(s: State)
    requires s.waiter == Entering && s.full
    ensures ReturnsAlone(s)
  {
    assert Alone(WaiterStep(WaiterStep(WaiterStep(s))), 0).waiter == Outside;
    ReturnsLater(WaiterStep(WaiterStep(s)));
    ReturnsLater(WaiterStep(s));
    ReturnsLater(s);
  }

  /** On its way to sleep, or asleep, with nothing to stop it. */
  predicate BoundToSleep(s: State) {
    && !s.full && Inside(s) && s.waiter != Leaving
    && (s.waiter != Entering ==> s.flag)
    && (s.waiter == CheckFull || s.waiter == CheckFlag || s.waiter == Sleeping ==> s.queued)
  }

  lemma {:induction false} SleepStays(s: State, k: nat)
    requires BoundToSleep(s)
    ensures Alone(s, k).waiter != Outside
    decreases k
  {
    if k > 0 { SleepStays(WaiterStep(s), k - 1); }
  }

  /** What an INTERRUPT does to a waiter inside the call depends on the moment it
      resets the flag.  Once it is over, the waiter left alone returns if and only
      if it had stored its flag by then, or finds the ring almost full.  After the
      flag store the release holds under any schedule: the waiter returns within
      seven of its waking steps. */
  lemma {:induction false} InterruptDecides(s: State, i: nat, steps: seq<Step>)
    requires Inv(s) && i < |s.interrupters| && s.interrupters[i] == Resetting && Inside(s)
    ensures var t := Next(s, Interrupt(i));
            && (ReturnsAlone(Next(t, Interrupt(i))) <==> s.waiter != Entering || s.full)
            && (s.waiter != Entering && NotYetBack(t, steps) ==>
                  Released(Run(t, steps)) && AwakeSteps(t, steps) <= 7)
  {
    var t := Next(s, Interrupt(i));
    var u := Next(t, Interrupt(i));
    InterruptInv(s, i);
    if s.waiter != Entering {
      AwakeReturns(u);
      if NotYetBack(t, steps) { ReleaseBound(t, steps); }
    } else if s.full {
      FullReturns(u);
    } else {
      SleepsAlone(u);
    }
  }

  /** Three steps of an interrupter reset the flag and clear the queue, nothing
      else. */
  lemma {:induction false} InterruptRuns(s: State, i: nat)
    requires i < |s.interrupters| && s.interrupters[i] == Away
    ensures var st := Interrupt(i);
            Next(Next(Next(s, st), st), st) == s.(flag := false, queued := false)
  {
    var st := Interrupt(i);
    assert Next(Next(Next(s, st), st), st).interrupters == s.interrupters;
  }

  /** A notifying writer that leaves the ring almost full ends the wait: the
      waiter left alone returns, unless its flag was reset before, and then a wake
      is pending.  One that does not leave it so changes nothing. */
  lemma {:induction false} NotifyDecides(s: State, w: nat, fills: bool)
    requires Inv(s) && Inside(s) && w < |s.writers| && s.writers[w] == Quiet
    ensures var st := Notify(w);
            var t := Next(Next(Next(Next(s, Write(w, fills)), st), st), st);
            var awaited := s.waiter == Sleeping && s.queued && !s.flag;
            && t.writers == s.writers
            && (s.full || fills ==> (ReturnsAlone(t) <==> !awaited) && (awaited ==> WakePending(t)))
            && (!s.full && !fills ==> t == s)
  {
    var st := Notify(w);
    var t := Next(Next(Next(Next(s, Write(w, fills)), st), st), st);
    assert t.writers == s.writers && t.interrupters == s.interrupters;
    if s.full || fills {
      if s.waiter == Entering {
        FullReturns(t);
      } else if s.waiter == Sleeping && s.queued && !s.flag {
        forall k: nat ensures Alone(t, k).waiter != Outside {
          AsleepStays(t, k);
        }
      } else {
        AwakeReturns(t);
      }
    }
  }

  lemma {:induction false} AsleepStays(s: State, k: nat)
    requires s.waiter == Sleeping && s.queued
    ensures Alone(s, k) == s
    decreases k
  {
    if k > 0 { AsleepStays(s, k - 1); }
  }

  /** A call made now returns by itself exactly if the ring is almost full; once
      the consumer has emptied the ring it does not.  A signal ends any sleep. */
  lemma {:induction false} CallDecides(s: State)
    ensures s.waiter == Outside ==>
              && (ReturnsAlone(Next(s, Wait)) <==> s.full)
              && !ReturnsAlone(Next(Next(s, Consume), Wait))
              && ReturnsAlone(Next(Next(s, Fill), Wait))
    ensures s.waiter == Sleeping ==> ReturnsAlone(Next(s, Signal))
  {
    if s.waiter == Outside {
      if s.full { FullReturns(Next(s, Wait)); } else { SleepsAlone(Next(s, Wait)); }
      SleepsAlone(Next(Next(s, Consume), Wait));
      FullReturns(Next(Next(s, Fill), Wait));
    }
    if s.waiter == Sleeping {
      assert Alone(WaiterStep(Next(s, Signal)), 0).waiter == Outside;
      ReturnsLater(Next(s, Signal));
    }
  }

  lemma {:induction false} SleepsAlone(s: State)
    requires BoundToSleep(s)
    ensures !ReturnsAlone(s)
  {
    forall k: nat ensures Alone(s, k).waiter != Outside {
      SleepStays(s, k);
    }
  }

  /** An INTERRUPT that comes between the call and its flag store is lost: the
      waiter goes to sleep and nothing that is under way will wake it. */
  lemma {:induction false} EarlyInterruptIsLost()
    ensures var i := Interrupt(0);
            var s := Run(Init(1, 1), [Wait, i, i, i, Wait, Wait, Wait, Wait, Wait, Wait]);
            s.waiter == Sleeping && s.queued && s.flag && !WakePending(s) && !NotifyPending(s)
  {
    var i := Interrupt(0);
    var sleep := [Wait, Wait, Wait, Wait, Wait, Wait];
    EarlyRun(sleep);
    assert [Wait, i, i, i] + sleep == [Wait, i, i, i, Wait, Wait, Wait, Wait, Wait, Wait];
    FallsAsleep(Init(1, 1).(waiter := Entering));
  }

  lemma {:induction false} EarlyRun(rest: seq<Step>)
    ensures var i := Interrupt(0);
            Run(Init(1, 1), [Wait, i, i, i] + rest) == Run(Init(1, 1).(waiter := Entering), rest)
  {
    var i := Interrupt(0);
    var s := Init(1, 1).(waiter := Entering);
    assert s.interrupters == [Away];
    RunHead(Init(1, 1), Wait, [i, i, i] + rest);
    PassesBy(s, rest);
    assert [Wait] + ([i, i, i] + rest) == [Wait, i, i, i] + rest;
  }

  lemma {:induction false} RunHead(s: State, st: Step, rest: seq<Step>)
    ensures Run(s, [st] + rest) == Run(Next(s, st), rest)
  {}

  /** With the flag not set yet, an interrupt leaves no trace. */
  lemma {:induction false} PassesBy(s: State, rest: seq<Step>)
    requires s.interrupters == [Away] && !s.flag && !s.queued
    ensures var i := Interrupt(0); Run(s, [i, i, i] + rest) == Run(s, rest)
  {
    var i := Interrupt(0);
    InterruptRuns(s, 0);
    RunHead(s, i, [i] + ([i] + rest));
    RunHead(Next(s, i), i, [i] + rest);
    RunHead(Next(Next(s, i), i), i, rest);
    assert [i, i, i] + rest == [i] + ([i] + ([i] + rest));
  }

  /** Left alone, a waiter that enters with the ring not almost full sleeps. */
  lemma {:induction false} FallsAsleep(s: State)
    requires s.waiter == Entering && !s.full
    ensures Run(s, [Wait, Wait, Wait, Wait, Wait, Wait]) == s.(waiter := Sleeping, queued := true, flag := true)
  {}
}
