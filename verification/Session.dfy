/**
  The life of a tracing session as the module's management code runs it, one
  operation at a time under its mutex: trace files opened and released, tracers
  set up and torn down CPU by CPU, probes registered with rollback, rings
  allocated and replaced.  What the kernel may refuse is passed in as `Faults`.
 */
module Session {
  import opened Common
  import opened DeviceList
  import opened FsMonitor
  import BufferSizing

  datatype Probe = BioQueue | BioComplete | RequestComplete | BioSplit

  const ALL_PROBES: set<Probe> := {BioQueue, BioComplete, RequestComplete, BioSplit}

  datatype Ring = Ring(id: nat, size: nat)

  /** What the kernel answers while a session is being set up, per CPU or per
      probe; a code of 0 is success. */
  datatype Faults = Faults(
    areas: bool,                // the per-CPU areas
    open: nat -> int,           // octf_trace_open
    memory: nat -> bool,        // the inode tracer
    supported: nat -> bool,     // filesystem monitoring on this kernel
    group: nat -> bool,         // a notification group
    probe: Probe -> int)        // registering a probe

  /** The first code that is not 0, if any. */
  function FirstError(codes: seq<int>): int {
    if codes == [] then 0 else if codes[0] != 0 then codes[0] else FirstError(codes[1..])
  }

  lemma {:induction false} FirstErrorCons(code: int, rest: seq<int>)
    ensures FirstError([code] + rest) == if code != 0 then code else FirstError(rest)
  {
    assert ([code] + rest)[1..] == rest;
  }

  lemma {:induction false} FirstErrorAt(codes: seq<int>, k: nat)
    requires k <= |codes| && forall i :: 0 <= i < k ==> codes[i] == 0
    ensures FirstError(codes) == if k == |codes| then 0 else FirstError(codes[k..])
    ensures k < |codes| && codes[k] != 0 ==> FirstError(codes) == codes[k]
    decreases k
  {
    if k == 0 {
      assert codes[0..] == codes;
    } else {
      FirstErrorAt(codes[1..], k - 1);
      assert codes[1..][k - 1..] == codes[k..];
    }
  }

  /** Setting one CPU up. */
  function CpuCode(ring: Option<Ring>, f: Faults, c: nat): int {
    if ring.None? then EINVAL else if f.open(c) != 0 then f.open(c) else if !f.memory(c) then ENOMEM else 0
  }

  function CpuCodes(rings: seq<Option<Ring>>, f: Faults): (r: seq<int>)
    ensures |r| == |rings| && forall c :: 0 <= c < |rings| ==> r[c] == CpuCode(rings[c], f, c)
  {
    seq(|rings|, c requires 0 <= c < |rings| => CpuCode(rings[c], f, c))
  }

  function InitCode(rings: seq<Option<Ring>>, f: Faults): int {
    if !f.areas then ENOMEM else FirstError(CpuCodes(rings, f))
  }

  function RegisterCode(f: Faults): int {
    FirstError([f.probe(BioQueue), f.probe(BioComplete), f.probe(RequestComplete), f.probe(BioSplit)])
  }

  /** The result of attaching one more client. */
  function AttachCode(clients: nat, rings: seq<Option<Ring>>, f: Faults): int {
    if clients > 0 then 0 else if InitCode(rings, f) != 0 then InitCode(rings, f) else RegisterCode(f)
  }

  // ------------------------------------------- what the codes mean, one by one

  lemma {:induction false} FirstErrorZero(codes: seq<int>)
    ensures FirstError(codes) == 0 <==> forall i :: 0 <= i < |codes| ==> codes[i] == 0
  {
    if codes != [] {
      FirstErrorZero(codes[1..]);
      assert forall i :: 1 <= i < |codes| ==> codes[i] == codes[1..][i - 1];
    }
  }

  /** CPU `c` can be set up. */
  predicate Ready(rings: seq<Option<Ring>>, f: Faults, c: nat)
    requires c < |rings|
  {
    rings[c].Some? && f.open(c) == 0 && f.memory(c)
  }

  /** The order in which probes are registered. */
  const PROBE_ORDER: seq<Probe> := [BioQueue, BioComplete, RequestComplete, BioSplit]

  /** A first client gets in if the areas are granted, every CPU has its ring, its
      trace opened and its tracer allocated, and all probes register.  A further
      client always does. */
  ghost predicate Admitted(clients: nat, rings: seq<Option<Ring>>, f: Faults) {
    || clients > 0
    || (&& f.areas && (forall c :: 0 <= c < |rings| ==> Ready(rings, f, c))
        && (forall p :: f.probe(p) == 0))
  }

  lemma {:induction false} AttachesIff(clients: nat, rings: seq<Option<Ring>>, f: Faults)
    ensures AttachCode(clients, rings, f) == 0 <==> Admitted(clients, rings, f)
  {
    AllReady(rings, f);
    AllRegister(f);
  }

  lemma {:induction false} AllReady(rings: seq<Option<Ring>>, f: Faults)
    ensures FirstError(CpuCodes(rings, f)) == 0 <==> forall c :: 0 <= c < |rings| ==> Ready(rings, f, c)
  {
    var codes := CpuCodes(rings, f);
    FirstErrorZero(codes);
    assert forall c :: 0 <= c < |rings| ==> (codes[c] == 0 <==> Ready(rings, f, c));
  }

  lemma {:induction false} AllRegister(f: Faults)
    ensures RegisterCode(f) == 0 <==> forall p :: f.probe(p) == 0
  {
    var codes := [f.probe(BioQueue), f.probe(BioComplete), f.probe(RequestComplete), f.probe(BioSplit)];
    FirstErrorZero(codes);
    assert codes[0] == f.probe(BioQueue) && codes[1] == f.probe(BioComplete);
    assert codes[2] == f.probe(RequestComplete) && codes[3] == f.probe(BioSplit);
    if forall i :: 0 <= i < 4 ==> codes[i] == 0 {
      forall p ensures f.probe(p) == 0 {
        match p
        case BioQueue => case BioComplete => case RequestComplete => case BioSplit =>
      }
    }
  }

  /** The first CPU that cannot be set up decides: EINVAL without a ring, else the
      code of opening its trace, else ENOMEM for its tracer. */
  lemma {:induction false} AttachFailsAt(rings: seq<Option<Ring>>, f: Faults, c: nat)
    requires c < |rings| && !Ready(rings, f, c) && forall k :: 0 <= k < c ==> Ready(rings, f, k)
    ensures !f.areas ==> AttachCode(0, rings, f) == ENOMEM
    ensures f.areas && rings[c].None? ==> AttachCode(0, rings, f) == EINVAL
    ensures f.areas && rings[c].Some? && f.open(c) != 0 ==> AttachCode(0, rings, f) == f.open(c)
    ensures f.areas && rings[c].Some? && f.open(c) == 0 ==> AttachCode(0, rings, f) == ENOMEM
  {
    var codes := CpuCodes(rings, f);
    assert forall k :: 0 <= k < c ==> Ready(rings, f, k) ==> codes[k] == 0;
    FirstErrorAt(codes, c);
  }

  /** With every CPU set up, the first probe that does not register decides. */
  lemma {:induction false} AttachFailsAtProbe(rings: seq<Option<Ring>>, f: Faults, i: nat)
    requires f.areas && forall c :: 0 <= c < |rings| ==> Ready(rings, f, c)
    requires i < |PROBE_ORDER| && f.probe(PROBE_ORDER[i]) != 0
    requires forall j :: 0 <= j < i ==> f.probe(PROBE_ORDER[j]) == 0
    ensures AttachCode(0, rings, f) == f.probe(PROBE_ORDER[i])
  {
    AllReady(rings, f);
    var codes := [f.probe(BioQueue), f.probe(BioComplete), f.probe(RequestComplete), f.probe(BioSplit)];
    assert forall j :: 0 <= j < 4 ==> codes[j] == f.probe(PROBE_ORDER[j]);
    FirstErrorAt(codes, i);
  }

  /** Ring and header make up `size`. */
  predicate Fills(ring: Option<Ring>, header: nat, size: nat) {
    ring.Some? && ring.value.size + header == size
  }

  /** The result of giving a CPU a ring so that ring and header make up `size`. */
  function RingCode(ring: Option<Ring>, header: nat, size: nat, granted: bool): int {
    if size < header then ENOSPC
    else if Fills(ring, header, size) then 0
    else if !granted || BufferSizing.Allocation(size - header) == 0 then ENOMEM
    else 0
  }

  /** A ring that already fits is kept, whatever the kernel would grant.  A new one
      is had exactly if the header leaves it room and the kernel grants it. */
  lemma {:induction false} RingCodeIs(ring: Option<Ring>, header: nat, size: nat, granted: bool)
    requires size < TWO64 - BufferSizing.PAGE
    ensures var code := RingCode(ring, header, size, granted);
            && (size < header ==> code == ENOSPC)
            && (size >= header && ring.Some? && ring.value.size == size - header ==> code == 0)
            && (size >= header && (ring.None? || ring.value.size != size - header) ==>
                  code == if granted && size > header then 0 else ENOMEM)
  {}

  function RingCodes(rings: seq<Option<Ring>>, header: nat, size: nat, granted: nat -> bool): (r: seq<int>)
    ensures |r| == |rings|
    ensures forall c :: 0 <= c < |rings| ==> r[c] == RingCode(rings[c], header, size, granted(c))
  {
    seq(|rings|, c requires 0 <= c < |rings| => RingCode(rings[c], header, size, granted(c)))
  }

  /** The result of resizing all buffers. */
  function ResizeCode(clients: nat, rings: seq<Option<Ring>>, header: nat, mib: nat, granted: nat -> bool): int
    requires |rings| > 0
  {
    if clients > 0 then EINVAL
    else
      var share := BufferSizing.Share(mib, |rings|);
      if share.None? then EINVAL else FirstError(RingCodes(rings, header, share.value, granted))
  }

  /** Buffers are resized exactly without clients, with a share for every CPU, and
      if every CPU's ring can be had. */
  lemma {:induction false} ResizesIff(clients: nat, rings: seq<Option<Ring>>, header: nat, mib: nat,
                                      granted: nat -> bool)
    requires |rings| > 0
    ensures var share := BufferSizing.Share(mib, |rings|);
            && (clients > 0 || share.None? ==> ResizeCode(clients, rings, header, mib, granted) == EINVAL)
            && (clients == 0 && share.Some? ==>
                  (ResizeCode(clients, rings, header, mib, granted) == 0 <==>
                   forall c :: 0 <= c < |rings| ==> RingCode(rings[c], header, share.value, granted(c)) == 0))
  {
    var share := BufferSizing.Share(mib, |rings|);
    if share.Some? { FirstErrorZero(RingCodes(rings, header, share.value, granted)); }
  }

  /** Otherwise the first CPU whose ring cannot be had decides. */
  lemma {:induction false} ResizeFailsAt(rings: seq<Option<Ring>>, header: nat, mib: nat, granted: nat -> bool, c: nat)
    requires c < |rings| && BufferSizing.Share(mib, |rings|).Some?
    requires var size := BufferSizing.Share(mib, |rings|).value;
             && RingCode(rings[c], header, size, granted(c)) != 0
             && forall k :: 0 <= k < c ==> RingCode(rings[k], header, size, granted(k)) == 0
    ensures var size := BufferSizing.Share(mib, |rings|).value;
            ResizeCode(0, rings, header, mib, granted) == RingCode(rings[c], header, size, granted(c))
  {
    FirstErrorAt(RingCodes(rings, header, BufferSizing.Share(mib, |rings|).value, granted), c);
  }

  /** The first `done` CPUs have rings for `size`, the others what they had.  A
      ring that was right is kept, a new one has a number from `firstNew` on. */
  ghost predicate Resized(before: seq<Option<Ring>>, after: seq<Option<Ring>>, header: nat, size: nat, done: nat,
                          firstNew: nat) {
    && |after| == |before| && done <= |after|
    && (forall c :: 0 <= c < done ==> Fills(after[c], header, size))
    && (forall c :: 0 <= c < done && Fills(before[c], header, size) ==> after[c] == before[c])
    && (forall c :: 0 <= c < done && !Fills(before[c], header, size) ==> after[c].value.id >= firstNew)
    && (forall c :: done <= c < |after| ==> after[c] == before[c])
  }

  /** The books on open handles: clients are the handles, and each file's count
      is its handles plus its own reference. */
  ghost predicate Balanced(clients: nat, handles: seq<nat>, refs: seq<nat>) {
    && |refs| == |handles| && clients == Sum(handles)
    && forall c :: 0 <= c < |refs| ==> refs[c] == 1 + handles[c]
  }

  lemma {:induction false} OneMoreHandle(clients: nat, handles: seq<nat>, refs: seq<nat>, c: nat)
    requires Balanced(clients, handles, refs) && c < |refs|
    ensures Balanced(clients + 1, handles[c := handles[c] + 1], refs[c := refs[c] + 1])
  {
    SumUpdate(handles, c, handles[c] + 1);
  }

  lemma {:induction false} OneLessHandle(clients: nat, handles: seq<nat>, refs: seq<nat>, c: nat)
    requires Balanced(clients, handles, refs) && c < |refs| && handles[c] > 0
    ensures clients > 0 && Balanced(clients - 1, handles[c := handles[c] - 1], refs[c := refs[c] - 1])
  {
    SumUpdate(handles, c, handles[c] - 1);
  }

  function Sum(s: seq<nat>): nat {
    if s == [] then 0 else Sum(s[..|s| - 1]) + s[|s| - 1]
  }

  lemma {:induction false} SumUpdate(s: seq<nat>, i: nat, v: nat)
    requires i < |s|
    ensures Sum(s[i := v]) + s[i] == Sum(s) + v
    decreases |s|
  {
    var k := |s| - 1;
    if i < k {
      assert s[i := v][..k] == s[..k][i := v];
      SumUpdate(s[..k], i, v);
    } else {
      assert s[i := v][..k] == s[..k];
    }
  }

  class Context {
    const cpus: nat
    /** size of a consumer header, a whole number of pages */
    const header: nat
    const bdev: DeviceTable
    const tracers: TracerSet
    var clients: nat
    /** per CPU: the ring the trace is open over, if it is open */
    var traces: seq<Option<nat>>
    var probes: set<Probe>
    /** per CPU: the ring buffer of the trace file, whether its consumer header
        is allocated, the file's reference count, the handles open on it */
    var rings: seq<Option<Ring>>
    var headers: seq<bool>
    var refs: seq<nat>
    var handles: seq<nat>
    var nextRing: nat
    /** each CPU's share of the buffer size */
    var share: nat

    ghost predicate Closed()
      reads this`traces, this`probes, tracers
    {
      (forall c :: 0 <= c < |traces| ==> traces[c].None?) && tracers.Empty() && probes == {}
    }

    /** Every CPU's trace is open over the CPU's present ring. */
    ghost predicate AllOpen()
      reads this`traces, this`rings, tracers
    {
      forall c :: 0 <= c < |traces| && c < |rings| && c < |tracers.tracers| ==>
        && rings[c].Some? && traces[c] == Some(rings[c].value.id) && tracers.tracers[c].Present?
    }

    ghost predicate Shape()
      reads this`traces, this`rings, this`nextRing, tracers, bdev, bdev.list
    {
      && cpus >= 1 && |traces| == |rings| == cpus
      && |tracers.tracers| == cpus && tracers.Valid()
      && bdev.list.Length0 == cpus && bdev.Valid()
      && (forall c :: 0 <= c < cpus && rings[c].Some? ==> rings[c].value.id < nextRing)
      && header > 0 && header % BufferSizing.PAGE == 0
    }

    ghost predicate Valid()
      reads this, tracers, bdev, bdev.list
    {
      && Shape() && |refs| == |headers| == cpus && Balanced(clients, handles, refs)
      && (forall c :: 0 <= c < cpus ==> headers[c])
      && (clients > 0 ==> AllOpen() && probes == ALL_PROBES)
      && (clients == 0 ==> Closed() && bdev.devices == [])
    }

    constructor (cpus: nat, header: nat)
      requires cpus >= 1 && header > 0 && header % BufferSizing.PAGE == 0
      ensures Valid() && clients == 0 && this.cpus == cpus && this.header == header
      ensures share == 0 && forall c :: 0 <= c < cpus ==> rings[c].None? && handles[c] == 0 && refs[c] == 1
      ensures fresh(tracers) && fresh(bdev) && fresh(bdev.list)
    {
      this.cpus := cpus;
      this.header := header;
      bdev := new DeviceTable(cpus);
      tracers := new TracerSet(cpus);
      clients := 0;
      traces := seq(cpus, _ => None);
      probes := {};
      rings := seq(cpus, _ => None);
      headers := seq(cpus, _ => true);
      refs := seq(cpus, _ => 1);
      handles := seq(cpus, _ => 0);
      nextRing := 0;
      share := 0;
      new;
      NoHandles(handles);
    }

    // --------------------------------------------------------------- tracers

    /** `init_tracers`: all CPUs opened, or everything closed again. */
    method InitTracers(f: Faults) returns (result: int)
      requires Shape() && Closed()
      modifies this`traces, tracers
      ensures Shape() && result == InitCode(rings, f)
      ensures result == 0 ==> AllOpen()
      ensures result != 0 ==> Closed()
    {
      result := if f.areas then 0 else ENOMEM;
      var c := 0;
      while result == 0 && c < cpus
        invariant 0 <= c <= cpus && |traces| == cpus && |tracers.tracers| == cpus && tracers.Valid()
        invariant result == 0 ==> f.areas && forall k :: 0 <= k < c ==> CpuCode(rings[k], f, k) == 0
        invariant result == 0 ==> forall k :: 0 <= k < c ==> traces[k] == Some(rings[k].value.id)
                                                             && tracers.tracers[k].Present?
        invariant result == 0 ==> forall k :: c <= k < cpus ==> tracers.tracers[k].Absent?
        invariant result != 0 ==> result == InitCode(rings, f)
        decreases cpus - c, if result == 0 then 1 else 0
      {
        FirstErrorAt(CpuCodes(rings, f), c);
        result := InitCpu(f, c);
        if result == 0 { c := c + 1; }
      }
      FirstErrorAt(CpuCodes(rings, f), if result == 0 then c else 0);
      if result != 0 { DeinitTracers(); }
    }

    /** One turn of the loop of `init_tracers`. */
    method InitCpu(f: Faults, c: nat) returns (result: int)
      requires c < cpus == |traces| == |rings| == |tracers.tracers| && tracers.Valid() && tracers.tracers[c].Absent?
      modifies this`traces, tracers
      ensures result == CpuCode(rings[c], f, c) && (result == 0 <==> Ready(rings, f, c))
      ensures |traces| == |tracers.tracers| == cpus && tracers.Valid()
      ensures forall k :: 0 <= k < cpus && k != c ==>
                traces[k] == old(traces)[k] && tracers.tracers[k] == old(tracers.tracers)[k]
      ensures traces[c] == if rings[c].Some? && f.open(c) == 0 then Some(rings[c].value.id) else old(traces)[c]
      ensures tracers.tracers[c].Present? <==> Ready(rings, f, c)
    {
      if rings[c].None? { return EINVAL; }
      result := f.open(c);
      if result != 0 { return; }
      traces := traces[c := Some(rings[c].value.id)];
      var ok := tracers.Create(c, f.memory(c), f.supported(c), f.group(c));
      if !ok { result := ENOMEM; }
    }

    /** `deinit_tracers` */
    method DeinitTracers()
      requires |traces| == cpus && |tracers.tracers| == cpus && tracers.Valid()
      modifies this`traces, tracers
      ensures |traces| == cpus && |tracers.tracers| == cpus && tracers.Valid() && tracers.Empty()
      ensures forall c :: 0 <= c < cpus ==> traces[c].None?
    {
      var c := 0;
      while c < cpus
        invariant 0 <= c <= cpus && |traces| == cpus && |tracers.tracers| == cpus && tracers.Valid()
        invariant forall k :: 0 <= k < c ==> traces[k].None?
      {
        traces := traces[c := None];
        c := c + 1;
      }
      tracers.DestroyAll();
    }

    // ---------------------------------------------------------------- probes

    /** `iotrace_register_trace_block_bio_complete`: both completion probes or
        neither. */
    method RegisterCompletion(f: Faults) returns (result: int)
      requires BioComplete !in probes && RequestComplete !in probes
      modifies this`probes
      ensures result == FirstError([f.probe(BioComplete), f.probe(RequestComplete)])
      ensures probes == if result == 0 then old(probes) + {BioComplete, RequestComplete} else old(probes)
    {
      FirstErrorCons(f.probe(BioComplete), [f.probe(RequestComplete)]);
      result := f.probe(BioComplete);
      if result != 0 { return; }
      probes := probes + {BioComplete};
      result := f.probe(RequestComplete);
      if result != 0 {
        probes := probes - {BioComplete};
        return;
      }
      probes := probes + {RequestComplete};
    }

    method UnregisterCompletion()
      modifies this`probes
      ensures probes == old(probes) - {BioComplete, RequestComplete}
    {
      probes := probes - {BioComplete};
      probes := probes - {RequestComplete};
    }

    /** `_register_trace_points`: all four probes or none. */
    method RegisterTracePoints(f: Faults) returns (result: int)
      requires probes == {}
      modifies this`probes
      ensures result == RegisterCode(f)
      ensures probes == if result == 0 then ALL_PROBES else {}
    {
      FourCodes(f);
      result := f.probe(BioQueue);
      if result != 0 { return; }
      probes := probes + {BioQueue};
      result := RegisterCompletion(f);
      if result == 0 {
        result := f.probe(BioSplit);
        if result == 0 {
          probes := probes + {BioSplit};
          return;
        }
        UnregisterCompletion();
      }
      probes := probes - {BioQueue};
    }

    method UnregisterTracePoints()
      modifies this`probes
      ensures probes == old(probes) - ALL_PROBES
    {
      probes := probes - {BioQueue};
      UnregisterCompletion();
      probes := probes - {BioSplit};
    }

    // --------------------------------------------------------------- clients

    /** `iotrace_attach_client`, up to but not including the new handle's place
        in the books.  A failure leaves no trace of the attempt. */
    method Attach(f: Faults) returns (result: int)
      requires Valid()
      modifies this`clients, this`traces, this`probes, tracers
      ensures Shape() && result == AttachCode(old(clients), rings, f)
      ensures result == 0 <==> Admitted(old(clients), rings, f)
      ensures old(clients) > 0 ==> && traces == old(traces) && tracers.tracers == old(tracers.tracers)
                                   && tracers.monitors == old(tracers.monitors)
      ensures clients == old(clients) + (if result == 0 then 1 else 0)
      ensures result == 0 ==> AllOpen() && probes == ALL_PROBES
      ensures result != 0 ==> Closed() && clients == 0
    {
      AttachesIff(clients, rings, f);
      if clients == 0 {
        result := InitTracers(f);
        if result != 0 { return; }
        result := RegisterTracePoints(f);
        if result != 0 {
          DeinitTracers();
          return;
        }
      }
      clients := clients + 1;
      result := 0;
    }

    /** `iotrace_detach_client`.  The last client takes the probes, the devices
        with their references, and the tracers with it. */
    method Detach(cpu: nat)
      requires Shape() && clients > 0 && cpu < cpus && AllOpen() && probes == ALL_PROBES
      modifies this`clients, this`traces, this`probes, tracers, bdev, bdev.list
      ensures Shape() && clients == old(clients) - 1
      ensures clients > 0 ==> AllOpen() && probes == ALL_PROBES && bdev.devices == old(bdev.devices)
      ensures clients > 0 ==> && traces == old(traces) && tracers.tracers == old(tracers.tracers)
                              && tracers.monitors == old(tracers.monitors)
      ensures clients == 0 ==> Closed() && bdev.devices == [] && bdev.refs == multiset{}
    {
      clients := clients - 1;
      if clients > 0 { return; }
      UnregisterTracePoints();
      bdev.RemoveAllLocked(cpu);
      DeinitTracers();
    }

    /** `_iotrace_open` on the ring or header file of CPU `c`; `pinned` is whether
        the module could be kept from unloading. */
    method Open(c: nat, write: bool, writeable: bool, pinned: bool, f: Faults) returns (result: int)
      requires Valid() && c < cpus
      modifies this`clients, this`traces, this`probes, this`refs, this`handles, tracers
      ensures Valid()
      ensures result == if write && !writeable then EACCES
                        else if !pinned then EINVAL
                        else AttachCode(old(clients), rings, f)
      ensures handles == if result == 0 then old(handles)[c := old(handles)[c] + 1] else old(handles)
    {
      if write && !writeable { return EACCES; }
      if !pinned { return EINVAL; }
      result := Enter(c, f);
    }

    /** The part of `_iotrace_open` that attaches a client and counts the handle. */
    method Enter(c: nat, f: Faults) returns (result: int)
      requires Valid() && c < cpus
      modifies this`clients, this`traces, this`probes, this`refs, this`handles, tracers
      ensures Valid() && result == AttachCode(old(clients), rings, f)
      ensures handles == if result == 0 then old(handles)[c := old(handles)[c] + 1] else old(handles)
    {
      OneMoreHandle(clients, handles, refs, c);
      result := Attach(f);
      if result != 0 { return; }
      refs, handles := refs[c := refs[c] + 1], handles[c := handles[c] + 1];
    }

    /** `_iotrace_release`.  The file's own reference keeps its ring. */
    method Release(c: nat, cpu: nat)
      requires Valid() && c < cpus && cpu < cpus && handles[c] > 0
      modifies this`clients, this`traces, this`probes, this`refs, this`handles, this`rings, this`headers
      modifies tracers, bdev, bdev.list
      ensures Valid() && rings == old(rings)
      ensures handles == old(handles)[c := old(handles)[c] - 1]
      ensures clients > 0 ==> traces == old(traces) && bdev.devices == old(bdev.devices)
    {
      OneLessHandle(clients, handles, refs, c);
      Detach(cpu);
      handles := handles[c := handles[c] - 1];
      Put(c);
    }

    /** `kref_put` with `_iotrace_free`: ring and header go together. */
    method Put(c: nat)
      requires c < |refs| == |rings| == |headers| && refs[c] > 0
      modifies this`refs, this`rings, this`headers
      ensures refs == old(refs)[c := old(refs)[c] - 1]
      ensures rings == if refs[c] == 0 then old(rings)[c := None] else old(rings)
      ensures headers == if refs[c] == 0 then old(headers)[c := false] else old(headers)
    {
      refs := refs[c := refs[c] - 1];
      if refs[c] == 0 {
        rings := rings[c := None];
        headers := headers[c := false];
      }
    }

    /** `iotrace_bdev_add` through the control file: refused without a client. */
    method AddDevice(path: string, found: Lookup, cpu: nat) returns (result: int)
      requires Valid() && cpu < cpus && (found.Failed? ==> found.error < 0)
      modifies bdev, bdev.list
      ensures Valid()
      ensures result == AddCode(old(bdev.devices), path, found, clients)
      ensures result == 0 ==> clients > 0 && bdev.devices == old(bdev.devices) + [found.bdev]
      ensures result != 0 ==> bdev.devices == old(bdev.devices)
    {
      result := bdev.Add(path, found, cpu, clients);
    }

    /** `iotrace_bdev_remove` through the control file. */
    method RemoveDevice(path: string, found: Lookup, cpu: nat) returns (result: int)
      requires Valid() && cpu < cpus && (found.Failed? ==> found.error < 0)
      modifies bdev, bdev.list
      ensures Valid()
      ensures result == RemoveCode(old(bdev.devices), path, found)
      ensures result == 0 ==> Removed(old(bdev.devices), found.bdev, bdev.devices)
      ensures result != 0 ==> bdev.devices == old(bdev.devices)
    {
      result := bdev.Remove(path, found, cpu);
    }

    // ----------------------------------------------------------------- rings

    /** `iotrace_procfs_trace_file_alloc`: a new ring so that ring and header
        make up `size`, unless the present one already does. */
    method AllocRing(c: nat, size: nat, granted: bool) returns (result: int)
      requires c < |rings|
      modifies this`rings, this`nextRing
      ensures result == RingCode(old(rings)[c], header, size, granted)
      ensures result == 0 && !Fills(old(rings)[c], header, size) ==>
                && rings == old(rings)[c := Some(Ring(old(nextRing), size - header))]
                && nextRing == old(nextRing) + 1
      ensures result != 0 || Fills(old(rings)[c], header, size) ==>
                rings == old(rings) && nextRing == old(nextRing)
    {
      if size < header { return ENOSPC; }
      var left := size - header;
      if rings[c].Some? && rings[c].value.size == left { return 0; }
      if !granted || BufferSizing.Allocation(left) == 0 { return ENOMEM; }
      rings := rings[c := Some(Ring(nextRing, left))];
      nextRing := nextRing + 1;
      result := 0;
    }

    /** `iotrace_init_buffers`: refused while any client is attached, so no open
        trace ever loses its ring.  A resize that fails midway has resized the
        CPUs before the failing one and already announces the new size. */
    method InitBuffers(mib: nat, granted: nat -> bool) returns (result: int)
      requires Valid()
      modifies this`rings, this`nextRing, this`share
      ensures Valid()
      ensures result == ResizeCode(clients, old(rings), header, mib, granted)
      ensures clients > 0 || BufferSizing.Share(mib, cpus).None? ==> rings == old(rings) && share == old(share)
      ensures clients == 0 && BufferSizing.Share(mib, cpus).Some? ==>
                && share == BufferSizing.Share(mib, cpus).value
                && exists done :: && Resized(old(rings), rings, header, share, done, old(nextRing))
                                  && (result == 0 <==> done == cpus)
    {
      if clients > 0 { return EINVAL; }
      var size := BufferSizing.Share(mib, cpus);
      if size.None? { return EINVAL; }
      share := size.value;
      ghost var done;
      result, done := AllocRings(size.value, granted);
    }

    /** The loop over CPUs of `iotrace_init_buffers`; it stops at the first CPU
        whose ring cannot be had. */
    method AllocRings(size: nat, granted: nat -> bool) returns (result: int, ghost done: nat)
      requires |rings| == cpus
      requires forall c :: 0 <= c < cpus && rings[c].Some? ==> rings[c].value.id < nextRing
      modifies this`rings, this`nextRing
      ensures |rings| == cpus
      ensures forall c :: 0 <= c < cpus && rings[c].Some? ==> rings[c].value.id < nextRing
      ensures result == FirstError(RingCodes(old(rings), header, size, granted))
      ensures Resized(old(rings), rings, header, size, done, old(nextRing)) && (result == 0 <==> done == cpus)
    {
      ghost var codes := RingCodes(rings, header, size, granted);
      result := 0;
      var c := 0;
      while c < cpus
        invariant 0 <= c <= cpus && result == 0
        invariant forall k :: 0 <= k < |rings| && rings[k].Some? ==> rings[k].value.id < nextRing
        invariant Resized(old(rings), rings, header, size, c, old(nextRing)) && nextRing >= old(nextRing)
        invariant forall k :: 0 <= k < c ==> codes[k] == 0
      {
        FirstErrorAt(codes, c);
        result := AllocRing(c, size, granted(c));
        if result != 0 { return result, c; }
        c := c + 1;
      }
      FirstErrorAt(codes, c);
      done := c;
    }

    /** `iotrace_procfs_deinit`, which the module loader allows only when no
        handle is open: every ring and header is freed. */
    method Unload()
      requires Valid() && clients == 0
      modifies this`refs, this`rings, this`headers
      ensures |rings| == |headers| == |refs| == cpus
      ensures forall c :: 0 <= c < cpus ==> rings[c].None? && !headers[c] && refs[c] == 0
    {
      var c := 0;
      ZeroHandles(handles);
      while c < cpus
        invariant 0 <= c <= cpus && |rings| == |headers| == |refs| == cpus
        invariant forall k :: 0 <= k < c ==> rings[k].None? && !headers[k] && refs[k] == 0
        invariant forall k :: c <= k < cpus ==> refs[k] == 1
      {
        Put(c);
        c := c + 1;
      }
    }
  }

  lemma {:induction false} FourCodes(f: Faults)
    ensures RegisterCode(f) == if f.probe(BioQueue) != 0 then f.probe(BioQueue)
                               else if FirstError([f.probe(BioComplete), f.probe(RequestComplete)]) != 0
                               then FirstError([f.probe(BioComplete), f.probe(RequestComplete)])
                               else f.probe(BioSplit)
  {
    var a, b, c, d := f.probe(BioQueue), f.probe(BioComplete), f.probe(RequestComplete), f.probe(BioSplit);
    FirstErrorCons(a, [b, c, d]);
    FirstErrorCons(b, [c, d]);
    FirstErrorCons(c, [d]);
    FirstErrorCons(b, [c]);
    assert [a] + [b, c, d] == [a, b, c, d] && [b] + [c, d] == [b, c, d];
  }

  lemma {:induction false} NoHandles(s: seq<nat>)
    requires forall i :: 0 <= i < |s| ==> s[i] == 0
    ensures Sum(s) == 0
    decreases |s|
  {
    if s != [] { NoHandles(s[..|s| - 1]); }
  }

  lemma {:induction false} ZeroHandles(s: seq<nat>)
    requires Sum(s) == 0
    ensures forall i :: 0 <= i < |s| ==> s[i] == 0
    decreases |s|
  {
    if s != [] {
      ZeroHandles(s[..|s| - 1]);
      assert forall i :: 0 <= i < |s| - 1 ==> s[i] == s[..|s| - 1][i];
    }
  }
}
