/**
  The user-space side of starting a trace: add the devices one after the other
  through the module's control files, and take back the ones already added when
  one of them fails.

  `resolve` is what the kernel finds under a path that is added, `found(i)` what
  it finds under the path of the i-th removal.  `writable(i)` is whether the
  control file could be written for the i-th add, `removable(i)` whether it could
  for the i-th removal.
 */
module TraceExecutor {
  import opened DeviceList

  /** The control-file handler refuses a line of `PATH_MAX` bytes or more; the
      executor appends a newline to the path. */
  predicate Fits(path: string) {
    |path| + 1 < PATH_MAX
  }

  class Executor {
    const table: DeviceTable
    const paths: seq<string>
    const resolve: string -> Lookup
    var started: seq<string>

    constructor (table: DeviceTable, paths: seq<string>, resolve: string -> Lookup)
      ensures this.table == table && this.paths == paths && this.resolve == resolve && started == []
    {
      this.table := table;
      this.paths := paths;
      this.resolve := resolve;
      started := [];
    }

    ghost predicate AllFound(ps: seq<string>) {
      forall i :: 0 <= i < |ps| ==> resolve(ps[i]).Opened? && Fits(ps[i])
    }

    /** The devices found under `ps`. */
    ghost function Resolved(ps: seq<string>): (r: seq<Bdev>)
      requires AllFound(ps)
      ensures |r| == |ps| && forall i :: 0 <= i < |ps| ==> r[i] == resolve(ps[i]).bdev
    {
      seq(|ps|, i requires 0 <= i < |ps| => resolve(ps[i]).bdev)
    }

    /** The i-th add succeeds once the ones before it have, on top of `before`. */
    ghost predicate Startable(before: seq<Bdev>, i: nat, writable: nat -> bool, clients: nat)
      requires i < |paths|
    {
      && writable(i) && Fits(paths[i]) && resolve(paths[i]).Opened? && clients > 0
      && |before| + i < MAX_DEVICES
      && AllFound(paths[..i])
      && !QueueTraced(before + Resolved(paths[..i]), resolve(paths[i]).bdev.queue)
    }

    /** `k` is the first device that cannot be started. */
    ghost predicate FirstRefused(before: seq<Bdev>, k: nat, writable: nat -> bool, clients: nat) {
      && k < |paths| && !Startable(before, k, writable, clients)
      && AllFound(paths[..k])
      && forall i :: 0 <= i < k ==> Startable(before, i, writable, clients)
    }

    /** Each removal of `ps` finds under its path what the add found there. */
    ghost predicate SameFound(ps: seq<string>, found: nat -> Lookup) {
      forall i :: 0 <= i < |ps| ==> found(i) == resolve(ps[i])
    }

    /** The devices found under `ps` are the last ones of `s`, in order. */
    ghost predicate Tops(s: seq<Bdev>, ps: seq<string>) {
      |ps| <= |s| && AllFound(ps) && s == s[..|s| - |ps|] + Resolved(ps)
    }

    /** Device `k` was refused, and the ones before it were stopped, together with
        those still started from before.  If these were the last ones listed, the
        list in front of them stays in place. */
    ghost predicate RolledBack(before: seq<Bdev>, earlier: seq<string>, after: seq<Bdev>, k: nat,
                               writable: nat -> bool, removable: nat -> bool, found: nat -> Lookup, clients: nat) {
      && FirstRefused(before, k, writable, clients)
      && after == Stopped(before + Resolved(paths[..k]), earlier + paths[..k], removable, found)
      && (Tops(before, earlier) && SameFound(earlier + paths, found) ==>
            EndsWith(after, before[..|before| - |earlier|], Kept(Resolved(earlier + paths[..k]), removable)))
    }

    ghost predicate Usable()
      reads table, table.list
    {
      table.Valid() && forall p :: resolve(p).Failed? ==> resolve(p).error < 0
    }

    /** The first `i` devices are added on top of `before`. */
    ghost predicate Added(before: seq<Bdev>, earlier: seq<string>, i: nat)
      reads this`started, table`devices
    {
      && i <= |paths| && started == earlier + paths[..i] && AllFound(paths[..i])
      && table.devices == before + Resolved(paths[..i])
    }

    lemma {:induction false} ResolvedNext(i: nat)
      requires i < |paths| && AllFound(paths[..i]) && resolve(paths[i]).Opened? && Fits(paths[i])
      ensures paths[..i + 1] == paths[..i] + [paths[i]] && AllFound(paths[..i + 1])
      ensures Resolved(paths[..i + 1]) == Resolved(paths[..i]) + [resolve(paths[i]).bdev]
    {}

    /** One turn of `startTrace`: write the path, remember it on success. */
    method StartOne(i: nat, writable: nat -> bool, cpu: nat, clients: nat,
                    ghost before: seq<Bdev>, ghost earlier: seq<string>)
      returns (ok: bool)
      requires Usable() && cpu < table.list.Length0 && i < |paths| && Added(before, earlier, i)
      modifies this`started, table, table.list
      ensures Usable()
      ensures ok <==> Startable(before, i, writable, clients)
      ensures |paths[i] + "\n"| >= PATH_MAX ==> !ok
      ensures Added(before, earlier, if ok then i + 1 else i)
    {
      assert Holds(table.Row(cpu), table.devices);
      ok := writable(i) && Fits(paths[i]);
      if ok {
        var result := table.Add(paths[i], resolve(paths[i]), cpu, clients);
        ok := result == 0;
      }
      if ok {
        ResolvedNext(i);
        started := started + [paths[i]];
      }
    }

    /** `startTrace`.  Succeeds exactly if every device can be started, and then
        all are traced in order behind those of earlier starts.  Otherwise all
        started devices are stopped, also those of earlier starts.  If these were
        the last ones listed and every removal succeeds, then what was listed in
        front of them is left on every CPU, order included. */
    method StartTrace(writable: nat -> bool, removable: nat -> bool, found: nat -> Lookup, cpu: nat, clients: nat)
      returns (ok: bool)
      requires Usable() && ErrorsNegative(found) && cpu < table.list.Length0
      modifies this`started, table, table.list
      ensures Usable()
      ensures ok <==> forall i :: 0 <= i < |paths| ==> Startable(old(table.devices), i, writable, clients)
      ensures ok ==> Added(old(table.devices), old(started), |paths|)
      ensures !ok ==> && started == []
                      && exists k: nat :: RolledBack(old(table.devices), old(started), table.devices, k,
                                                     writable, removable, found, clients)
      ensures !ok && Tops(old(table.devices), old(started)) && (forall i :: removable(i))
              && SameFound(old(started) + paths, found) ==>
                table.devices == old(table.devices)[..|old(table.devices)| - |old(started)|]
    {
      ghost var before, earlier := table.devices, started;
      var n := StartUntilRefused(writable, cpu, clients);
      ok := n == |paths|;
      if !ok {
        if Tops(before, earlier) { TopsMore(before, earlier, paths[..n]); }
        if SameFound(earlier + paths, found) { SameFoundFewer(earlier, n, found); }
        StopDevices(removable, found, cpu);
        assert RolledBack(before, earlier, table.devices, n, writable, removable, found, clients);
      }
    }

    lemma {:induction false} SameFoundFewer(earlier: seq<string>, n: nat, found: nat -> Lookup)
      requires n <= |paths| && SameFound(earlier + paths, found)
      ensures SameFound(earlier + paths[..n], found)
    {
      forall i | 0 <= i < |earlier| + n ensures (earlier + paths)[i] == (earlier + paths[..n])[i] {}
    }

    lemma {:induction false} TopsMore(s: seq<Bdev>, earlier: seq<string>, ps: seq<string>)
      requires Tops(s, earlier) && AllFound(ps)
      ensures var all := s + Resolved(ps);
              && Tops(all, earlier + ps)
              && all[..|all| - |earlier + ps|] == s[..|s| - |earlier|]
    {
      var base := s[..|s| - |earlier|];
      assert Resolved(earlier + ps) == Resolved(earlier) + Resolved(ps);
      assert s + Resolved(ps) == base + Resolved(earlier + ps);
    }

    /** The loop of `startTrace`, up to the first device that is refused. */
    method StartUntilRefused(writable: nat -> bool, cpu: nat, clients: nat) returns (n: nat)
      requires Usable() && cpu < table.list.Length0
      modifies this`started, table, table.list
      ensures Usable() && Added(old(table.devices), old(started), n)
      ensures forall i :: 0 <= i < n ==> Startable(old(table.devices), i, writable, clients)
      ensures n < |paths| ==> !Startable(old(table.devices), n, writable, clients)
    {
      ghost var before, earlier := table.devices, started;
      assert before + Resolved(paths[..0]) == before && earlier + paths[..0] == earlier;
      n := 0;
      while n < |paths|
        invariant 0 <= n <= |paths| && Usable() && Added(before, earlier, n)
        invariant forall i :: 0 <= i < n ==> Startable(before, i, writable, clients)
      {
        var one := StartOne(n, writable, cpu, clients, before, earlier);
        if !one { return; }
        n := n + 1;
      }
    }

    /** `stopDevices`: removes oldest-first from a list that refills gaps from
        its end.  Where the started devices are the last ones listed, what was
        there before stays in place, followed by those whose removal failed. */
    method StopDevices(removable: nat -> bool, found: nat -> Lookup, cpu: nat)
      requires Usable() && ErrorsNegative(found) && cpu < table.list.Length0
      modifies this`started, table, table.list
      ensures Usable() && started == []
      ensures table.devices == Stopped(old(table.devices), old(started), removable, found)
      ensures Tops(old(table.devices), old(started)) && SameFound(old(started), found) ==>
                var before := old(table.devices)[..|old(table.devices)| - |old(started)|];
                && EndsWith(table.devices, before, Kept(Resolved(old(started)), removable))
                && ((forall i :: removable(i)) ==> table.devices == before)
    {
      ghost var s := table.devices;
      var i := 0;
      while i < |started|
        invariant 0 <= i <= |started| && Usable() && started == old(started)
        invariant table.devices == Stopped(s, started[..i], removable, found)
      {
        assert started[..i + 1][..i] == started[..i];
        StopOne(started[i], removable(i), found(i), cpu);
        i := i + 1;
      }
      assert started[..|started|] == started;
      if Tops(s, started) && SameFound(started, found) { StoppedTops(s, started, removable, found); }
      started := [];
    }

    /** One turn of `stopDevices`; a removal that fails is only reported. */
    method StopOne(path: string, written: bool, found: Lookup, cpu: nat)
      requires Usable() && (found.Failed? ==> found.error < 0) && cpu < table.list.Length0
      modifies table, table.list
      ensures Usable()
      ensures table.devices == WithoutPath(old(table.devices), path, written, found)
    {
      ghost var s := table.devices;
      if written && Fits(path) {
        var result := table.Remove(path, found, cpu);
        if result == 0 { RemovedAt(s, found.bdev, table.devices); }
      }
    }

    /** Stopping the first `i` of the devices that end the list. */
    lemma {:induction false} StoppedTail(before: seq<Bdev>, ps: seq<string>, removable: nat -> bool,
                                         found: nat -> Lookup, i: nat)
      returns (rest: seq<Bdev>)
      requires AllFound(ps) && SameFound(ps, found) && DistinctQueues(before + Resolved(ps)) && i <= |ps|
      ensures Stopped(before + Resolved(ps), ps[..i], removable, found) == before + rest
      ensures DistinctQueues(before + rest) && Leftover(rest, Resolved(ps), removable, i)
    {
      var all := Resolved(ps);
      if i == 0 {
        rest := all;
        LeftoverStart(all, removable);
      } else {
        rest := StoppedTail(before, ps, removable, found, i - 1);
        assert ps[..i][..i - 1] == ps[..i - 1];
        if removable(i - 1) {
          var s := before + rest;
          LeftoverHasNext(before, rest, all, removable, i - 1);
          var after := SwapRemove(s, Position(s, all[i - 1]));
          SwapRemoveDistinct(s, Position(s, all[i - 1]));
          rest := TailRemoved(before, rest, all, removable, i - 1, after);
        } else {
          LeftoverKeeps(rest, all, removable, i - 1);
        }
      }
    }

    /** Stopping all of them leaves the rest of the list in place. */
    lemma {:induction false} StoppedTops(s: seq<Bdev>, ps: seq<string>, removable: nat -> bool,
                                         found: nat -> Lookup)
      requires Tops(s, ps) && SameFound(ps, found) && DistinctQueues(s)
      ensures var before, after := s[..|s| - |ps|], Stopped(s, ps, removable, found);
              && EndsWith(after, before, Kept(Resolved(ps), removable))
              && ((forall i :: removable(i)) ==> after == before)
    {
      var all := Resolved(ps);
      var rest := StoppedTail(s[..|s| - |ps|], ps, removable, found, |ps|);
      assert ps[..|ps|] == ps;
      LeftoverEnd(rest, all, removable);
      if forall i :: removable(i) { KeptNone(all, removable); }
    }
  }

  ghost predicate ErrorsNegative(found: nat -> Lookup) {
    forall i :: found(i).Failed? ==> found(i).error < 0
  }

  /** The list after trying to remove what is found under `p`. */
  ghost function WithoutPath(s: seq<Bdev>, p: string, written: bool, found: Lookup): (r: seq<Bdev>) {
    if written && Fits(p) && found.Opened? && found.bdev in s then SwapRemove(s, Position(s, found.bdev)) else s
  }

  /** The list after trying that for each of `ps` in turn. */
  ghost function Stopped(s: seq<Bdev>, ps: seq<string>, removable: nat -> bool, found: nat -> Lookup): (r: seq<Bdev>) {
    if ps == [] then s
    else
      var k := |ps| - 1;
      WithoutPath(Stopped(s, ps[..k], removable, found), ps[k], removable(k), found(k))
  }

  /** Where the list first holds `b`. */
  function Position(s: seq<Bdev>, b: Bdev): (i: nat)
    requires b in s
    ensures i < |s| && s[i] == b
  {
    if s[0] == b then 0
    else
      assert b in s[1..];
      1 + Position(s[1..], b)
  }

  lemma {:induction false} RemovedAt(s: seq<Bdev>, b: Bdev, after: seq<Bdev>)
    requires DistinctQueues(s) && Removed(s, b, after)
    ensures b in s && after == SwapRemove(s, Position(s, b))
  {
    var i :| 0 <= i < |s| && s[i] == b && after == SwapRemove(s, i);
    assert s[Position(s, b)] == s[i];
  }

  /** The devices whose removal fails. */
  ghost function Kept(all: seq<Bdev>, removable: nat -> bool): seq<Bdev> {
    if all == [] then []
    else
      var k := |all| - 1;
      Kept(all[..k], removable) + if removable(k) then [] else [all[k]]
  }

  /** `s` is `before`, in place, followed by `tail` in some order. */
  ghost predicate EndsWith(s: seq<Bdev>, before: seq<Bdev>, tail: seq<Bdev>) {
    before <= s && multiset(s[|before|..]) == multiset(tail)
  }

  lemma {:induction false} KeptNone(all: seq<Bdev>, removable: nat -> bool)
    requires forall i :: removable(i)
    ensures Kept(all, removable) == []
  {
    if all != [] { KeptNone(all[..|all| - 1], removable); }
  }

  /** `rest` are the devices kept before position `i` and all from there on. */
  ghost predicate Leftover(rest: seq<Bdev>, all: seq<Bdev>, removable: nat -> bool, i: nat) {
    i <= |all| && multiset(rest) == multiset(Kept(all[..i], removable)) + multiset(all[i..])
  }

  lemma {:induction false} LeftoverStart(all: seq<Bdev>, removable: nat -> bool)
    ensures Leftover(all, all, removable, 0)
  {
    assert all[0..] == all;
  }

  lemma {:induction false} LeftoverEnd(rest: seq<Bdev>, all: seq<Bdev>, removable: nat -> bool)
    requires Leftover(rest, all, removable, |all|)
    ensures multiset(rest) == multiset(Kept(all, removable))
    ensures Kept(all, removable) == [] ==> rest == []
  {
    assert all[..|all|] == all && all[|all|..] == [];
    if rest != [] { assert rest[0] in multiset(rest); }
  }

  lemma {:induction false} KeptNext(all: seq<Bdev>, removable: nat -> bool, i: nat)
    requires i < |all|
    ensures Kept(all[..i + 1], removable) == Kept(all[..i], removable) + if removable(i) then [] else [all[i]]
    ensures multiset(all[i..]) == multiset{all[i]} + multiset(all[i + 1..])
  {
    assert all[..i + 1][..i] == all[..i];
    assert all[i..] == [all[i]] + all[i + 1..];
  }

  lemma {:induction false} LeftoverKeeps(rest: seq<Bdev>, all: seq<Bdev>, removable: nat -> bool, i: nat)
    requires i < |all| && Leftover(rest, all, removable, i) && !removable(i)
    ensures Leftover(rest, all, removable, i + 1)
  {
    KeptNext(all, removable, i);
  }

  lemma {:induction false} LeftoverHasNext(before: seq<Bdev>, rest: seq<Bdev>, all: seq<Bdev>,
                                           removable: nat -> bool, i: nat)
    requires i < |all| && Leftover(rest, all, removable, i)
    ensures all[i] in rest && all[i] in before + rest
  {
    KeptNext(all, removable, i);
    assert all[i] in multiset(rest);
  }

  /** Removing the next device takes it out of the tail and leaves everything in
      front of the tail in place. */
  lemma {:induction false} TailRemoved(before: seq<Bdev>, rest: seq<Bdev>, all: seq<Bdev>,
                                       removable: nat -> bool, i: nat, after: seq<Bdev>)
    returns (less: seq<Bdev>)
    requires i < |all| && Leftover(rest, all, removable, i) && removable(i)
    requires DistinctQueues(before + rest) && Removed(before + rest, all[i], after)
    ensures after == before + less && Leftover(less, all, removable, i + 1)
  {
    LeftoverHasNext(before, rest, all, removable, i);
    var j :| 0 <= j < |rest| && rest[j] == all[i];
    RemovedWhere(before, rest, j, after);
    less := SwapRemove(rest, j);
    SwapRemoveBag(rest, j);
    KeptNext(all, removable, i);
  }

  lemma {:induction false} RemovedWhere(before: seq<Bdev>, rest: seq<Bdev>, j: nat, after: seq<Bdev>)
    requires j < |rest| && DistinctQueues(before + rest) && Removed(before + rest, rest[j], after)
    ensures after == before + SwapRemove(rest, j)
  {
    var s := before + rest;
    var k :| 0 <= k < |s| && s[k] == rest[j] && after == SwapRemove(s, k);
    assert s[|before| + j] == s[k];
    assert k == |before| + j;
    SwapRemoveTail(before, rest, j);
  }

  lemma {:induction false} SwapRemoveTail(before: seq<Bdev>, rest: seq<Bdev>, j: nat)
    requires j < |rest|
    ensures SwapRemove(before + rest, |before| + j) == before + SwapRemove(rest, j)
  {}
}
