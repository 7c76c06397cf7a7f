/**
  The list of traced block devices: one array per CPU, kept identical by running
  each update on every CPU, read by I/O on its own CPU without a lock.

  A device number stands for the block-device pointer; its request queue is what
  the I/O path looks it up by.
 */
module DeviceList {
  import opened Common

  const MAX_DEVICES: nat := 32
  const PATH_MAX: nat := 4096

  /** `queue` is the request queue, `devt` the id written into trace events. */
  datatype Bdev = Bdev(id: nat, queue: nat, devt: nat, name: string)

  type Slot = Option<Bdev>

  // ---------------------------------------------------------- one CPU's array

  /** The array holds exactly the devices `s`, then only empty slots. */
  ghost predicate Holds(row: seq<Slot>, s: seq<Bdev>) {
    && |row| == MAX_DEVICES && |s| <= MAX_DEVICES
    && (forall i :: 0 <= i < |s| ==> row[i] == Some(s[i]))
    && (forall i :: |s| <= i < |row| ==> row[i] == None)
  }

  ghost predicate DistinctQueues(s: seq<Bdev>) {
    forall i, j :: 0 <= i < j < |s| ==> s[i].queue != s[j].queue
  }

  ghost predicate QueueTraced(s: seq<Bdev>, q: nat) {
    exists i :: 0 <= i < |s| && s[i].queue == q
  }

  /** `iotrace_bdev_add_oncpu` on one CPU's array. */
  function AddSlot(row: seq<Slot>, num: nat, b: Bdev): (r: seq<Slot>)
    requires num < |row|
  {
    row[num := Some(b)]
  }

  /** `iotrace_bdev_remove_oncpu`: the last device takes the freed slot. */
  function RemoveSlot(row: seq<Slot>, num: nat, idx: nat): (r: seq<Slot>)
    requires idx < num <= |row|
  {
    row[idx := row[num - 1]][num - 1 := None]
  }

  /** The device list after removing position `idx` that way. */
  function SwapRemove(s: seq<Bdev>, idx: nat): (r: seq<Bdev>)
    requires idx < |s|
    ensures |r| == |s| - 1
  {
    s[idx := s[|s| - 1]][..|s| - 1]
  }

  /** `iotrace_get_bdev_from_queue`: scan to the first empty slot. */
  function Scan(row: seq<Slot>, q: nat): Slot {
    if row == [] || row[0].None? then None
    else if row[0].value.queue == q then row[0]
    else Scan(row[1..], q)
  }

  /** What the list means to the I/O path, order forgotten. */
  function ByQueue(s: seq<Bdev>): map<nat, Bdev> {
    if s == [] then map[] else ByQueue(s[..|s| - 1])[s[|s| - 1].queue := s[|s| - 1]]
  }

  function Find(m: map<nat, Bdev>, q: nat): Slot {
    if q in m then Some(m[q]) else None
  }

  lemma {:induction false} AddHolds(row: seq<Slot>, s: seq<Bdev>, b: Bdev)
    requires Holds(row, s) && |s| < MAX_DEVICES
    ensures Holds(AddSlot(row, |s|, b), s + [b])
  {}

  lemma {:induction false} RemoveHolds(row: seq<Slot>, s: seq<Bdev>, idx: nat)
    requires Holds(row, s) && idx < |s|
    ensures Holds(RemoveSlot(row, |s|, idx), SwapRemove(s, idx))
  {}

  lemma {:induction false} ByQueueMembers(s: seq<Bdev>)
    requires DistinctQueues(s)
    ensures forall i :: 0 <= i < |s| ==> s[i].queue in ByQueue(s) && ByQueue(s)[s[i].queue] == s[i]
    ensures forall q :: q in ByQueue(s) ==> exists i :: 0 <= i < |s| && s[i].queue == q
  {
    if s != [] {
      var k := |s| - 1;
      ByQueueMembers(s[..k]);
      forall q | q in ByQueue(s) ensures exists i :: 0 <= i < |s| && s[i].queue == q {
        if q != s[k].queue {
          var i :| 0 <= i < k && s[..k][i].queue == q;
          assert s[i].queue == q;
        }
      }
      forall i | 0 <= i < |s| ensures s[i].queue in ByQueue(s) && ByQueue(s)[s[i].queue] == s[i] {
        if i < k { assert s[..k][i] == s[i]; }
      }
    }
  }

  lemma {:induction false} ScanSuffix(row: seq<Slot>, s: seq<Bdev>, i: nat, q: nat)
    requires Holds(row, s) && i <= |s|
    ensures Scan(row[i..], q).Some? ==>
              exists k :: i <= k < |s| && s[k].queue == q && Scan(row[i..], q) == Some(s[k])
    ensures Scan(row[i..], q).None? ==> forall k :: i <= k < |s| ==> s[k].queue != q
    decreases |s| - i
  {
    if i < |s| {
      assert row[i..][0] == Some(s[i]);
      assert row[i..][1..] == row[i + 1..];
      ScanSuffix(row, s, i + 1, q);
    }
  }

  /** The scan answers exactly as the queue-to-device map does, for any order of
      the array and also when it is full and has no empty slot. */
  lemma {:induction false} ScanFinds(row: seq<Slot>, s: seq<Bdev>, q: nat)
    requires Holds(row, s) && DistinctQueues(s)
    ensures Scan(row, q) == Find(ByQueue(s), q)
  {
    assert row[0..] == row;
    ScanSuffix(row, s, 0, q);
    ByQueueMembers(s);
  }

  /** Adding a device extends the map, removing one deletes its queue: swapping
      the last device into the gap changes no other answer. */
  lemma {:induction false} AddToMap(s: seq<Bdev>, b: Bdev)
    ensures ByQueue(s + [b]) == ByQueue(s)[b.queue := b]
  {}

  lemma {:induction false} SwapRemoveIndex(s: seq<Bdev>, idx: nat, i: nat)
    requires idx < |s| && i < |s| - 1
    ensures SwapRemove(s, idx)[i] == if i == idx then s[|s| - 1] else s[i]
  {}

  lemma {:induction false} SwapRemoveDistinct(s: seq<Bdev>, idx: nat)
    requires DistinctQueues(s) && idx < |s|
    ensures DistinctQueues(SwapRemove(s, idx))
    ensures forall i :: 0 <= i < |s| - 1 ==> SwapRemove(s, idx)[i].queue != s[idx].queue
  {}

  lemma {:induction false} SwapRemoveMembers(s: seq<Bdev>, idx: nat)
    requires DistinctQueues(s) && idx < |s|
    ensures forall b :: b in SwapRemove(s, idx) <==> b in s && b != s[idx]
  {
    var r := SwapRemove(s, idx);
    forall i | 0 <= i < |r| ensures r[i] in s && r[i] != s[idx] {
      SwapRemoveIndex(s, idx, i);
    }
    forall i | 0 <= i < |s| && i != idx ensures s[i] in r {
      SwapRemoveIndex(s, idx, if i == |s| - 1 then idx else i);
      assert s[i] == r[if i == |s| - 1 then idx else i];
    }
  }

  lemma {:induction false} FindMember(s: seq<Bdev>, q: nat, b: Bdev)
    requires DistinctQueues(s)
    ensures Find(ByQueue(s), q) == Some(b) <==> b in s && b.queue == q
  {
    ByQueueMembers(s);
  }

  lemma {:induction false} FindRemoved(s: seq<Bdev>, idx: nat, q: nat)
    requires DistinctQueues(s) && idx < |s|
    ensures Find(ByQueue(SwapRemove(s, idx)), q) == if q == s[idx].queue then None else Find(ByQueue(s), q)
  {
    var r := SwapRemove(s, idx);
    SwapRemoveDistinct(s, idx);
    SwapRemoveMembers(s, idx);
    var x, y := Find(ByQueue(r), q), Find(ByQueue(s), q);
    if x.Some? {
      FindMember(r, q, x.value);
      FindMember(s, q, x.value);
    }
    if y.Some? {
      FindMember(s, q, y.value);
      FindMember(r, q, y.value);
    }
  }

  lemma {:induction false} RemoveFromMap(s: seq<Bdev>, idx: nat)
    requires DistinctQueues(s) && idx < |s|
    ensures ByQueue(SwapRemove(s, idx)) == ByQueue(s) - {s[idx].queue}
  {
    var a, b := ByQueue(SwapRemove(s, idx)), ByQueue(s) - {s[idx].queue};
    forall q: nat ensures Find(a, q) == Find(b, q) {
      FindRemoved(s, idx, q);
    }
    assert forall q: nat :: q in a <==> Find(a, q).Some?;
    assert forall q: nat :: q in b <==> Find(b, q).Some?;
    assert a.Keys == b.Keys;
    forall q | q in a ensures a[q] == b[q] {
      assert Find(a, q) == Find(b, q);
    }
  }

  /** Swap-removal loses exactly the removed device. */
  lemma {:induction false} SwapRemoveBag(s: seq<Bdev>, idx: nat)
    requires idx < |s|
    ensures multiset(SwapRemove(s, idx)) == multiset(s) - multiset{s[idx]}
  {
    var k := |s| - 1;
    assert s == s[..k] + [s[k]];
    if idx == k {
      assert SwapRemove(s, idx) == s[..k];
    } else {
      assert SwapRemove(s, idx) == s[..k][idx := s[k]];
    }
  }

  // ---------------------------------------------------------------- the table

  /** What `blkdev_get_by_path` gave for a path. */
  datatype Lookup = Opened(bdev: Bdev) | Failed(error: int)

  /** The result of adding what was found under `path` to the devices `s`. */
  ghost function AddCode(s: seq<Bdev>, path: string, found: Lookup, clients: nat): int {
    if |path| >= PATH_MAX then EINVAL
    else if |s| == MAX_DEVICES then ENOSPC
    else if found.Failed? then found.error
    else if QueueTraced(s, found.bdev.queue) then EPERM
    else if clients == 0 then EINVAL
    else 0
  }

  /** Each code has its own condition: the path too long, the list full, nothing
      found under the path, the queue traced already, no client. */
  lemma {:induction false} AddCodes(s: seq<Bdev>, path: string, found: Lookup, clients: nat)
    ensures var code := AddCode(s, path, found, clients);
            && (|path| >= PATH_MAX ==> code == EINVAL)
            && (|path| < PATH_MAX && |s| == MAX_DEVICES ==> code == ENOSPC)
            && (|path| < PATH_MAX && |s| != MAX_DEVICES && found.Failed? ==> code == found.error)
            && (|path| < PATH_MAX && |s| != MAX_DEVICES && found.Opened? ==>
                  && (QueueTraced(s, found.bdev.queue) ==> code == EPERM)
                  && (!QueueTraced(s, found.bdev.queue) ==> code == if clients > 0 then 0 else EINVAL))
  {}

  /** The result of removing what was found under `path`. */
  function RemoveCode(s: seq<Bdev>, path: string, found: Lookup): int {
    if |path| >= PATH_MAX then EINVAL
    else if found.Failed? then found.error
    else if found.bdev in s then 0
    else ENOENT
  }

  lemma {:induction false} RemoveCodes(s: seq<Bdev>, path: string, found: Lookup)
    ensures var code := RemoveCode(s, path, found);
            && (|path| >= PATH_MAX ==> code == EINVAL)
            && (|path| < PATH_MAX && found.Failed? ==> code == found.error)
            && (|path| < PATH_MAX && found.Opened? ==> code == if found.bdev in s then 0 else ENOENT)
  {}

  /** Every CPU got one more description, of `b`. */
  ghost predicate DescribedEverywhere(before: seq<seq<nat>>, b: Bdev, after: seq<seq<nat>>) {
    |after| == |before| && forall c :: 0 <= c < |before| ==> after[c] == before[c] + [b.devt]
  }

  /** `t` is `s` with `b` swap-removed. */
  ghost predicate Removed(s: seq<Bdev>, b: Bdev, t: seq<Bdev>) {
    exists i :: 0 <= i < |s| && s[i] == b && t == SwapRemove(s, i)
  }

  class DeviceTable {
    const list: array2<Slot>
    var num: nat
    /** block-device references taken and not yet put */
    var refs: multiset<Bdev>
    /** references taken by looking a path up, not yet dropped */
    var pins: multiset<Bdev>
    /** per CPU: the devices whose description was written, or refused, there */
    var described: seq<seq<nat>>
    /** the devices, in array order */
    ghost var devices: seq<Bdev>

    function Row(cpu: nat): (r: seq<Slot>)
      requires cpu < list.Length0
      reads list
      ensures |r| == list.Length1
      ensures forall i :: 0 <= i < |r| ==> r[i] == list[cpu, i]
    {
      seq(list.Length1, i requires 0 <= i < list.Length1 reads list => list[cpu, i])
    }

    ghost predicate Replicated(s: seq<Bdev>)
      reads list
    {
      forall cpu :: 0 <= cpu < list.Length0 ==> Holds(Row(cpu), s)
    }

    ghost predicate Consistent()
      reads this, list
    {
      && list.Length0 >= 1 && list.Length1 == MAX_DEVICES && |described| == list.Length0
      && num == |devices| && DistinctQueues(devices)
      && Replicated(devices)
      && refs == multiset(devices)
    }

    ghost predicate Valid()
      reads this, list
    {
      Consistent() && pins == multiset{}
    }

    constructor (cpus: nat)
      requires cpus >= 1
      ensures Valid() && devices == [] && list.Length0 == cpus && fresh(list)
    {
      list := new Slot[cpus, MAX_DEVICES]((c, i) => None);
      num := 0;
      refs := multiset{};
      pins := multiset{};
      described := seq(cpus, _ => []);
      devices := [];
    }

    /** The I/O path's lookup on its own CPU.  It never reads `num`. */
    method GetBdevFromQueue(cpu: nat, q: nat) returns (r: Slot)
      requires cpu < list.Length0 && list.Length1 == MAX_DEVICES
      ensures r == Scan(Row(cpu), q)
      ensures Valid() ==> r == Find(ByQueue(devices), q)
    {
      if Valid() { ScanFinds(Row(cpu), devices, q); }
      var i := 0;
      assert Row(cpu)[0..] == Row(cpu);
      while i < MAX_DEVICES && list[cpu, i].Some?
        invariant 0 <= i <= MAX_DEVICES && |Row(cpu)| == MAX_DEVICES
        invariant Scan(Row(cpu), q) == Scan(Row(cpu)[i..], q)
      {
        if list[cpu, i].value.queue == q {
          return list[cpu, i];
        }
        assert Row(cpu)[i..][1..] == Row(cpu)[i + 1..];
        i := i + 1;
      }
      r := None;
    }

    /** `iotrace_bdev_add_oncpu`: store the device, then describe it to the CPU's
        own ring. */
    method AddOnCpu(cpu: nat, b: Bdev)
      requires cpu < list.Length0 && num < list.Length1 && cpu < |described|
      modifies list, this`described
      ensures described == old(described)[cpu := old(described)[cpu] + [b.devt]]
      ensures Row(cpu) == AddSlot(old(Row(cpu)), num, b)
      ensures forall c :: 0 <= c < list.Length0 && c != cpu ==> Row(c) == old(Row(c))
    {
      list[cpu, num] := Some(b);
      described := described[cpu := described[cpu] + [b.devt]];
    }

    method RemoveOnCpu(cpu: nat, idx: nat)
      requires cpu < list.Length0 && idx < num <= list.Length1
      modifies list
      ensures Row(cpu) == RemoveSlot(old(Row(cpu)), num, idx)
      ensures forall c :: 0 <= c < list.Length0 && c != cpu ==> Row(c) == old(Row(c))
    {
      list[cpu, idx] := list[cpu, num - 1];
      list[cpu, num - 1] := None;
    }

    /** `on_each_cpu(iotrace_bdev_add_oncpu)` */
    method AddOnEachCpu(bdev: Bdev)
      requires list.Length1 == MAX_DEVICES && num == |devices| < MAX_DEVICES && Replicated(devices)
      requires |described| == list.Length0
      modifies list, this`described
      ensures Replicated(devices + [bdev])
      ensures DescribedEverywhere(old(described), bdev, described)
    {
      var c := 0;
      while c < list.Length0
        invariant c <= list.Length0
        invariant forall k :: 0 <= k < c ==> Holds(Row(k), devices + [bdev])
        invariant forall k :: c <= k < list.Length0 ==> Holds(Row(k), devices)
        invariant |described| == list.Length0
        invariant forall k :: 0 <= k < c ==> described[k] == old(described)[k] + [bdev.devt]
        invariant forall k :: c <= k < list.Length0 ==> described[k] == old(described)[k]
      {
        AddHolds(Row(c), devices, bdev);
        AddOnCpu(c, bdev);
        c := c + 1;
      }
    }

    /** `on_each_cpu(iotrace_bdev_remove_oncpu)` */
    method RemoveOnEachCpu(idx: nat)
      requires list.Length1 == MAX_DEVICES && idx < num == |devices| && Replicated(devices)
      requires num <= MAX_DEVICES
      modifies list
      ensures Replicated(SwapRemove(devices, idx))
    {
      var c := 0;
      while c < list.Length0
        invariant c <= list.Length0
        invariant forall k :: 0 <= k < c ==> Holds(Row(k), SwapRemove(devices, idx))
        invariant forall k :: c <= k < list.Length0 ==> Holds(Row(k), devices)
      {
        RemoveHolds(Row(c), devices, idx);
        RemoveOnCpu(c, idx);
        c := c + 1;
      }
    }

    /** The add path's search of one CPU's array for a queue already traced. */
    method QueueListed(cpu: nat, q: nat) returns (dup: bool)
      requires list.Length1 == MAX_DEVICES && num == |devices| && Replicated(devices) && cpu < list.Length0
      ensures dup <==> QueueTraced(devices, q)
    {
      assert Holds(Row(cpu), devices);
      var i := 0;
      while i < num
        invariant i <= num
        invariant forall k :: 0 <= k < i ==> devices[k].queue != q
      {
        assert Row(cpu)[i] == Some(devices[i]);
        if list[cpu, i].value.queue == q { return true; }
        i := i + 1;
      }
      dup := false;
    }

    /** `iotrace_bdev_add`.  `cpu` is the CPU it happens to run on, `clients`
        the number of attached readers.  Every failure leaves the list, the
        references and the rings as they were. */
    method Add(path: string, found: Lookup, cpu: nat, clients: nat) returns (result: int)
      requires Valid() && cpu < list.Length0
      requires found.Failed? ==> found.error < 0
      modifies this, list
      ensures Valid()
      ensures result == AddCode(old(devices), path, found, clients)
      ensures result == 0 ==> && found.Opened? && devices == old(devices) + [found.bdev]
                              && DescribedEverywhere(old(described), found.bdev, described)
      ensures result != 0 ==> devices == old(devices) && described == old(described)
    {
      assert Holds(Row(cpu), devices);
      if |path| >= PATH_MAX { return EINVAL; }
      if num == MAX_DEVICES { return ENOSPC; }
      if found.Failed? { return found.error; }
      refs := refs + multiset{found.bdev};
      result := Admit(found.bdev, cpu, clients);
      if result != 0 { refs := refs - multiset{found.bdev}; }
    }

    /** The part of `iotrace_bdev_add` after the device was opened. */
    method Admit(bdev: Bdev, cpu: nat, clients: nat) returns (result: int)
      requires list.Length1 == MAX_DEVICES && |described| == list.Length0 && cpu < list.Length0
      requires num == |devices| < MAX_DEVICES && Replicated(devices)
      modifies this`num, this`devices, this`described, list
      ensures result == if QueueTraced(old(devices), bdev.queue) then EPERM else if clients == 0 then EINVAL else 0
      ensures result == 0 ==> && devices == old(devices) + [bdev] && num == |devices| && Replicated(devices)
                              && DescribedEverywhere(old(described), bdev, described)
      ensures result != 0 ==> && num == old(num) && devices == old(devices) && Replicated(devices)
                              && described == old(described)
    {
      var dup := QueueListed(cpu, bdev.queue);
      if dup { return EPERM; }
      if clients == 0 { return EINVAL; }
      AddOnEachCpu(bdev);
      num := num + 1;
      devices := devices + [bdev];
      result := 0;
    }

    /** The remove path's search of one CPU's array; `num` if it is not there. */
    method IndexOf(bdev: Bdev, cpu: nat) returns (i: nat)
      requires list.Length1 == MAX_DEVICES && num == |devices| && Replicated(devices) && cpu < list.Length0
      ensures i <= num && (i == num <==> bdev !in devices)
      ensures i < num ==> devices[i] == bdev
    {
      assert Holds(Row(cpu), devices);
      i := 0;
      while i < num
        invariant i <= num
        invariant forall k :: 0 <= k < i ==> devices[k] != bdev
      {
        assert Row(cpu)[i] == Some(devices[i]);
        if list[cpu, i] == Some(bdev) { return; }
        i := i + 1;
      }
    }

    /** `iotrace_bdev_remove_locked` */
    method RemoveLocked(bdev: Bdev, cpu: nat) returns (result: int)
      requires Consistent() && cpu < list.Length0
      modifies this`num, this`refs, this`devices, list
      ensures Consistent()
      ensures result == if bdev in old(devices) then 0 else ENOENT
      ensures result == 0 ==> Removed(old(devices), bdev, devices)
      ensures result != 0 ==> devices == old(devices)
    {
      assert Holds(Row(cpu), devices);
      var i := IndexOf(bdev, cpu);
      if i == num { return ENOENT; }
      RemoveOnEachCpu(i);
      num := num - 1;
      refs := refs - multiset{bdev};
      SwapRemoveDistinct(devices, i);
      SwapRemoveBag(devices, i);
      devices := SwapRemove(devices, i);
      result := 0;
    }

    /** `iotrace_bdev_remove`: the reference its lookup takes is dropped again. */
    method Remove(path: string, found: Lookup, cpu: nat) returns (result: int)
      requires Valid() && cpu < list.Length0
      requires found.Failed? ==> found.error < 0
      modifies this`num, this`refs, this`devices, this`pins, list
      ensures Valid()
      ensures result == RemoveCode(old(devices), path, found)
      ensures result == 0 ==> Removed(old(devices), found.bdev, devices)
      ensures result != 0 ==> devices == old(devices)
    {
      if |path| >= PATH_MAX { return EINVAL; }
      if found.Failed? { return found.error; }
      pins := pins + multiset{found.bdev};
      result := RemoveLocked(found.bdev, cpu);
      pins := pins - multiset{found.bdev};
    }

    /** `iotrace_bdev_remove_all_locked`: always ends, with no reference left. */
    method RemoveAllLocked(cpu: nat)
      requires Valid() && cpu < list.Length0
      modifies this`num, this`refs, this`devices, list
      ensures Valid() && devices == [] && refs == multiset{}
    {
      while num > 0
        invariant Valid()
        decreases num
      {
        assert Row(cpu)[num - 1] == Some(devices[num - 1]);
        var result := RemoveLocked(list[cpu, num - 1].value, cpu);
      }
    }
  }
}
