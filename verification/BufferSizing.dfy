/**
  Trace-buffer sizes: from the requested total in MiB to each CPU's share, to
  the ring inside the share, to the pages a reader may map, and back.
 */
module BufferSizing {
  import opened Common

  const MIB: nat := 1048576
  const PAGE: nat := 4096
  const MAX_MIB: nat := 4096

  /** `iotrace_set_buffer_size` in 64-bit arithmetic: each CPU's share in bytes,
      or nothing if the request is refused. */
  function Share(mib: nat, cpus: nat): (r: Option<nat>)
    requires cpus > 0
  {
    var size := (mib * 1024 % TWO64) * 1024 % TWO64 / cpus;
    if mib > MAX_MIB || size == 0 then None else Some(size)
  }

  /** `iotrace_get_buffer_size` */
  function TotalMib(share: nat, cpus: nat): nat {
    (share * cpus % TWO64) / 1024 / 1024
  }

  lemma {:induction false} NoWrap(mib: nat)
    requires mib <= MAX_MIB
    ensures (mib * 1024 % TWO64) * 1024 % TWO64 == mib * MIB
  {}

  lemma {:induction false} DivMod(a: nat, b: nat)
    requires b > 0
    ensures a / b * b + a % b == a && 0 <= a % b < b
  {}

  /** A request is refused exactly above 4 GiB or when a CPU's share is nothing. */
  lemma {:induction false} AcceptedIff(mib: nat, cpus: nat)
    requires cpus > 0
    ensures Share(mib, cpus).Some? <==> mib <= MAX_MIB && mib * MIB >= cpus
    ensures Share(mib, cpus).Some? ==> Share(mib, cpus).value == mib * MIB / cpus
  {
    if mib <= MAX_MIB {
      NoWrap(mib);
      DivMod(mib * MIB, cpus);
      if mib * MIB < cpus { Small(mib * MIB, cpus); } else { AtLeastOne(mib * MIB, cpus); }
    }
  }

  lemma {:induction false} Small(a: nat, b: nat)
    requires a < b
    ensures a / b == 0
  {}

  lemma {:induction false} AtLeastOne(a: nat, b: nat)
    requires a >= b > 0
    ensures a / b >= 1
  {}

  /** What is left of `mib` MiB after losing `r` bytes, in whole MiB. */
  lemma {:induction false} Floored(mib: nat, r: nat)
    requires mib <= MAX_MIB && r <= mib * MIB
    ensures ((mib * MIB - r) % TWO64) / 1024 / 1024 == mib - (r + MIB - 1) / MIB
  {}

  /** Reading the size back loses the bytes the CPUs cannot share evenly,
      rounded up to whole MiB. */
  lemma {:induction false} ReadBackAnyCpus(mib: nat, cpus: nat)
    requires cpus > 0 && Share(mib, cpus).Some?
    ensures TotalMib(Share(mib, cpus).value, cpus) == mib - (mib * MIB % cpus + MIB - 1) / MIB
  {
    AcceptedIff(mib, cpus);
    var total := mib * MIB;
    DivMod(total, cpus);
    assert Share(mib, cpus).value * cpus == total - total % cpus;
    Floored(mib, total % cpus);
  }

  /** So for up to 2^20 CPUs it gives the MiB written if the CPUs divide the
      byte total evenly, and one less otherwise. */
  lemma {:induction false} ReadBack(mib: nat, cpus: nat)
    requires 0 < cpus <= MIB && Share(mib, cpus).Some?
    ensures TotalMib(Share(mib, cpus).value, cpus) == if mib * MIB % cpus == 0 then mib else mib - 1
  {
    ReadBackAnyCpus(mib, cpus);
    DivMod(mib * MIB, cpus);
    RoundUp(mib * MIB % cpus);
  }

  lemma {:induction false} RoundUp(r: nat)
    requires r < MIB
    ensures (r + MIB - 1) / MIB == if r == 0 then 0 else 1
  {}

  // ------------------------------------------------------------------- pages

  /** `iotrace_page_count` */
  function PageCount(size: nat): nat {
    (size + PAGE - 1) % TWO64 / PAGE
  }

  /** Bytes allocated for a ring of `size` bytes. */
  function Allocation(size: nat): nat {
    PageCount(size) * PAGE
  }

  /** Every page the fault handler lets through lies inside the allocation, and
      together they cover the ring with less than a page to spare. */
  lemma {:induction false} MappedPagesInside(size: nat, page: nat)
    requires size < TWO64 - PAGE && page < PageCount(size)
    ensures (page + 1) * PAGE <= Allocation(size)
    ensures size <= Allocation(size) < size + PAGE
    ensures page * PAGE < size
  {}

  /** `_iotrace_fault`: the byte offset of the page to map, unless the page is
      out of range. */
  function Fault(size: nat, page: nat): (r: Option<nat>) {
    if page >= PageCount(size) then None else Some(page * PAGE)
  }

  /** A reader can map a page exactly if some byte of the buffer is on it. */
  lemma {:induction false} MappableIff(size: nat, page: nat)
    requires size < TWO64 - PAGE
    ensures Fault(size, page).Some? <==> page * PAGE < size
    ensures Fault(size, page).Some? ==>
              Fault(size, page).value == page * PAGE && page * PAGE + PAGE <= Allocation(size)
  {}
}
