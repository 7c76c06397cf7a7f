/**
  The per-CPU inode tracers and the filesystem monitor they share.  The first
  tracer that can have a monitor creates it, the others take a reference, and
  the last one to go destroys it.  A tracer may also go without.
 */
module FsMonitor {
  import opened Common

  /** A CPU's inode tracer, and the monitor it points at if it got one. */
  datatype TracerSlot = Absent | Present(monitor: Option<nat>)

  /** How many tracers point at monitor `m`. */
  function Pointing(tracers: seq<TracerSlot>, m: nat): nat {
    if tracers == [] then 0
    else Pointing(tracers[..|tracers| - 1], m) + if tracers[|tracers| - 1] == Present(Some(m)) then 1 else 0
  }

  /** At most one live monitor; its reference count is the number of tracers
      pointing at it, and it lives exactly while that is not zero. */
  ghost predicate Counted(tracers: seq<TracerSlot>, monitors: map<nat, nat>) {
    && (forall m, k :: m in monitors && k in monitors ==> m == k)
    && (forall m: nat :: m in monitors <==> Pointing(tracers, m) > 0)
    && (forall m: nat :: m in monitors ==> monitors[m] == Pointing(tracers, m))
  }

  lemma {:induction false} PointingUpdate(tracers: seq<TracerSlot>, c: nat, t: TracerSlot, m: nat)
    requires c < |tracers|
    ensures Pointing(tracers[c := t], m) + (if tracers[c] == Present(Some(m)) then 1 else 0)
            == Pointing(tracers, m) + (if t == Present(Some(m)) then 1 else 0)
    decreases |tracers|
  {
    var k := |tracers| - 1;
    if c < k {
      assert tracers[c := t][..k] == tracers[..k][c := t];
      PointingUpdate(tracers[..k], c, t, m);
    } else {
      assert tracers[c := t][..k] == tracers[..k];
    }
  }

  lemma {:induction false} PointingFound(tracers: seq<TracerSlot>, m: nat)
    ensures Pointing(tracers, m) > 0 <==> exists c :: 0 <= c < |tracers| && tracers[c] == Present(Some(m))
    decreases |tracers|
  {
    if tracers != [] {
      var k := |tracers| - 1;
      PointingFound(tracers[..k], m);
      if c :| 0 <= c < k && tracers[c] == Present(Some(m)) {
        assert tracers[..k][c] == tracers[c];
      }
      if Pointing(tracers[..k], m) > 0 {
        var c :| 0 <= c < k && tracers[..k][c] == Present(Some(m));
        assert tracers[c] == Present(Some(m));
      }
    }
  }

  /** With no tracer pointing at any monitor, no monitor lives. */
  lemma {:induction false} NoMonitor(tracers: seq<TracerSlot>, monitors: map<nat, nat>)
    requires Counted(tracers, monitors)
    requires forall c :: 0 <= c < |tracers| ==> tracers[c].Absent? || tracers[c].monitor.None?
    ensures monitors == map[]
  {
    forall m: nat ensures m !in monitors {
      PointingFound(tracers, m);
    }
  }

  lemma {:induction false} Joined(tracers: seq<TracerSlot>, monitors: map<nat, nat>, c: nat, m: nat)
    requires Counted(tracers, monitors) && c < |tracers| && tracers[c].Absent? && m in monitors
    ensures Counted(tracers[c := Present(Some(m))], monitors[m := monitors[m] + 1])
  {
    forall k: nat ensures Pointing(tracers[c := Present(Some(m))], k)
                          == Pointing(tracers, k) + if k == m then 1 else 0
    {
      PointingUpdate(tracers, c, Present(Some(m)), k);
    }
  }

  lemma {:induction false} Founded(tracers: seq<TracerSlot>, c: nat, m: nat)
    requires Counted(tracers, map[]) && c < |tracers| && tracers[c].Absent?
    ensures Counted(tracers[c := Present(Some(m))], map[m := 1])
  {
    var after := tracers[c := Present(Some(m))];
    forall k: nat ensures Pointing(after, k) == (if k == m then 1 else 0) {
      PointingUpdate(tracers, c, Present(Some(m)), k);
    }
  }

  lemma {:induction false} Alone(tracers: seq<TracerSlot>, monitors: map<nat, nat>, c: nat, t: TracerSlot)
    requires Counted(tracers, monitors) && c < |tracers|
    requires tracers[c].Absent? || tracers[c].monitor.None?
    requires t.Absent? || t.monitor.None?
    ensures Counted(tracers[c := t], monitors)
  {
    forall k: nat ensures Pointing(tracers[c := t], k) == Pointing(tracers, k) {
      PointingUpdate(tracers, c, t, k);
    }
  }

  lemma {:induction false} Left(tracers: seq<TracerSlot>, monitors: map<nat, nat>, c: nat, m: nat)
    requires Counted(tracers, monitors) && c < |tracers| && tracers[c] == Present(Some(m))
    ensures m in monitors && monitors[m] >= 1
    ensures monitors[m] == 1 ==> Counted(tracers[c := Absent], monitors - {m})
    ensures monitors[m] > 1 ==> Counted(tracers[c := Absent], monitors[m := monitors[m] - 1])
  {
    PointingFound(tracers, m);
    forall k: nat ensures Pointing(tracers[c := Absent], k) + (if k == m then 1 else 0) == Pointing(tracers, k) {
      PointingUpdate(tracers, c, Absent, k);
    }
  }

  lemma {:induction false} AllAbsent(tracers: seq<TracerSlot>)
    requires forall c :: 0 <= c < |tracers| ==> tracers[c].Absent?
    ensures Counted(tracers, map[])
  {
    forall m: nat ensures Pointing(tracers, m) == 0 {
      PointingFound(tracers, m);
    }
  }

  class TracerSet {
    var tracers: seq<TracerSlot>
    /** live monitors and their reference counts */
    var monitors: map<nat, nat>
    var created: nat

    ghost predicate Valid()
      reads this
    {
      Counted(tracers, monitors) && forall m :: m in monitors ==> m < created
    }

    ghost predicate Empty()
      reads this
    {
      (forall c :: 0 <= c < |tracers| ==> tracers[c].Absent?) && monitors == map[]
    }

    constructor (cpus: nat)
      ensures Valid() && Empty() && |tracers| == cpus
    {
      tracers := seq(cpus, _ => Absent);
      monitors := map[];
      created := 0;
      new;
      AllAbsent(tracers);
    }

    /** `_fsm_try_get`: a reference to the monitor of the first tracer that has
        one; the caller stores it. */
    method TryGet() returns (m: Option<nat>)
      requires Valid()
      modifies this`monitors
      ensures m.None? ==> monitors == old(monitors) == map[]
      ensures m.Some? ==> m.value in old(monitors) && monitors == old(monitors)[m.value := old(monitors)[m.value] + 1]
    {
      var i := 0;
      while i < |tracers|
        invariant i <= |tracers| && monitors == old(monitors)
        invariant forall c :: 0 <= c < i ==> tracers[c].Absent? || tracers[c].monitor.None?
      {
        if tracers[i].Present? && tracers[i].monitor.Some? {
          var k := tracers[i].monitor.value;
          PointingFound(tracers, k);
          monitors := monitors[k := monitors[k] + 1];
          return Some(k);
        }
        i := i + 1;
      }
      NoMonitor(tracers, monitors);
      m := None;
    }

    /** `iotrace_create_inode_tracer` with `_fsm_init`.  `memory` is the tracer's
        own allocation, `supported` whether this kernel offers monitoring,
        `group` whether a new notification group could be allocated. */
    method Create(c: nat, memory: bool, supported: bool, group: bool) returns (ok: bool)
      requires Valid() && c < |tracers| && tracers[c].Absent?
      modifies this
      ensures Valid() && |tracers| == |old(tracers)| && ok == memory
      ensures forall k :: 0 <= k < |tracers| && k != c ==> tracers[k] == old(tracers)[k]
      ensures ok ==> && tracers[c].Present?
                     && (tracers[c].monitor.Some? <==> supported && (old(monitors) != map[] || group))
      ensures !ok ==> tracers[c].Absent?
    {
      if !memory { return false; }
      var fsm: Option<nat> := None;
      if supported {
        fsm := TryGet();
        if fsm.Some? {
          Joined(tracers, old(monitors), c, fsm.value);
        } else if group {
          Founded(tracers, c, created);
          fsm := Some(created);
          monitors := monitors[created := 1];
          created := created + 1;
        } else {
          Alone(tracers, monitors, c, Present(None));
        }
      } else {
        Alone(tracers, monitors, c, Present(None));
      }
      tracers := tracers[c := Present(fsm)];
      ok := true;
    }

    /** `iotrace_destroy_inode_tracer` with `_fs_monitor_put` */
    method Destroy(c: nat)
      requires Valid() && c < |tracers|
      modifies this
      ensures Valid() && |tracers| == |old(tracers)|
      ensures tracers == old(tracers)[c := Absent]
    {
      if tracers[c].Present? && tracers[c].monitor.Some? {
        var m := tracers[c].monitor.value;
        Left(tracers, monitors, c, m);
        if monitors[m] == 1 {
          monitors := monitors - {m};
        } else {
          monitors := monitors[m := monitors[m] - 1];
        }
      } else {
        Alone(tracers, monitors, c, Absent);
      }
      tracers := tracers[c := Absent];
    }

    /** Destroying every tracer, created or not, leaves no monitor behind. */
    method DestroyAll()
      requires Valid()
      modifies this
      ensures Valid() && Empty() && |tracers| == |old(tracers)|
    {
      var c := 0;
      while c < |tracers|
        invariant c <= |tracers| == |old(tracers)| && Valid()
        invariant forall k :: 0 <= k < c ==> tracers[k].Absent?
      {
        Destroy(c);
        c := c + 1;
      }
      NoMonitor(tracers, monitors);
    }
  }
}
