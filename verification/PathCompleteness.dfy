/**
  What the walk is for: a reader of one CPU's ring can rebuild the full path of
  every traced file from the name events in it.

  `Resolves` says so for one inode: some event names it, the event's parent is
  itself named, and so on up to an event that is its own parent, the root.
 */
module PathCompleteness {
  import opened Common
  import opened RecencyList
  import opened InodeTracer
  import opened PathWalk

  // ------------------------------------------------- paths in a name-event log

  ghost predicate ResolvesIn(log: seq<NameEvent>, k: Inode, steps: nat)
    decreases steps
  {
    exists e :: e in log && File(e) == k &&
      (ParentFile(e) == k || (steps > 0 && ResolvesIn(log, ParentFile(e), steps - 1)))
  }

  ghost predicate Resolves(log: seq<NameEvent>, k: Inode) {
    exists steps: nat :: ResolvesIn(log, k, steps)
  }

  /** From `k`, parent by parent, the log reaches inode `t`. */
  ghost predicate LeadsIn(log: seq<NameEvent>, k: Inode, t: Inode, steps: nat)
    decreases steps
  {
    exists e :: e in log && File(e) == k &&
      (ParentFile(e) == t || (steps > 0 && LeadsIn(log, ParentFile(e), t, steps - 1)))
  }

  ghost predicate LeadsTo(log: seq<NameEvent>, k: Inode, t: Inode) {
    exists steps: nat :: LeadsIn(log, k, t, steps)
  }

  ghost predicate Closed(m: seq<Inode>, log: seq<NameEvent>) {
    forall k :: k in m ==> Resolves(log, k)
  }

  lemma {:induction false} ResolvesMore(log: seq<NameEvent>, more: seq<NameEvent>, k: Inode, steps: nat)
    requires ResolvesIn(log, k, steps) && forall e :: e in log ==> e in more
    ensures ResolvesIn(more, k, steps)
    decreases steps
  {
    var e :| e in log && File(e) == k &&
      (ParentFile(e) == k || (steps > 0 && ResolvesIn(log, ParentFile(e), steps - 1)));
    if ParentFile(e) != k { ResolvesMore(log, more, ParentFile(e), steps - 1); }
    assert e in more;
  }

  lemma {:induction false} LeadsMore(log: seq<NameEvent>, more: seq<NameEvent>, k: Inode, t: Inode, steps: nat)
    requires LeadsIn(log, k, t, steps) && forall e :: e in log ==> e in more
    ensures LeadsIn(more, k, t, steps)
    decreases steps
  {
    var e :| e in log && File(e) == k &&
      (ParentFile(e) == t || (steps > 0 && LeadsIn(log, ParentFile(e), t, steps - 1)));
    if ParentFile(e) != t { LeadsMore(log, more, ParentFile(e), t, steps - 1); }
    assert e in more;
  }

  lemma {:induction false} LeadsThenResolves(log: seq<NameEvent>, k: Inode, t: Inode, steps: nat, rest: nat)
    requires LeadsIn(log, k, t, steps) && ResolvesIn(log, t, rest)
    ensures ResolvesIn(log, k, steps + rest + 1)
    decreases steps
  {
    var e :| e in log && File(e) == k &&
      (ParentFile(e) == t || (steps > 0 && LeadsIn(log, ParentFile(e), t, steps - 1)));
    if ParentFile(e) == t {
      ResolvesLonger(log, t, rest, steps + rest);
    } else {
      LeadsThenResolves(log, ParentFile(e), t, steps - 1, rest);
    }
  }

  lemma {:induction false} ResolvesLonger(log: seq<NameEvent>, k: Inode, steps: nat, more: nat)
    requires ResolvesIn(log, k, steps) && steps <= more
    ensures ResolvesIn(log, k, more)
    decreases steps
  {
    var e :| e in log && File(e) == k &&
      (ParentFile(e) == k || (steps > 0 && ResolvesIn(log, ParentFile(e), steps - 1)));
    if ParentFile(e) != k { ResolvesLonger(log, ParentFile(e), steps - 1, more - 1); }
  }

  lemma {:induction false} LeadsOn(log: seq<NameEvent>, k: Inode, e: NameEvent, steps: nat)
    requires e in log && LeadsIn(log, k, File(e), steps)
    ensures LeadsIn(log, k, ParentFile(e), steps + 1)
    decreases steps
  {
    var f :| f in log && File(f) == k &&
      (ParentFile(f) == File(e) || (steps > 0 && LeadsIn(log, ParentFile(f), File(e), steps - 1)));
    if ParentFile(f) == File(e) {
      assert LeadsIn(log, ParentFile(f), ParentFile(e), steps);
    } else {
      LeadsOn(log, ParentFile(f), e, steps - 1);
    }
  }

  lemma {:induction false} ResolvesGrows(log: seq<NameEvent>, more: seq<NameEvent>, k: Inode)
    requires Resolves(log, k) && forall e :: e in log ==> e in more
    ensures Resolves(more, k)
  {
    var steps: nat :| ResolvesIn(log, k, steps);
    ResolvesMore(log, more, k, steps);
  }

  lemma {:induction false} ResolvesVia(log: seq<NameEvent>, k: Inode, t: Inode)
    requires LeadsTo(log, k, t) && Resolves(log, t)
    ensures Resolves(log, k)
  {
    var steps: nat :| LeadsIn(log, k, t, steps);
    var rest: nat :| ResolvesIn(log, t, rest);
    LeadsThenResolves(log, k, t, steps, rest);
  }

  lemma {:induction false} ResolvesByEvent(log: seq<NameEvent>, e: NameEvent)
    requires e in log && (ParentFile(e) == File(e) || Resolves(log, ParentFile(e)))
    ensures Resolves(log, File(e))
  {
    if ParentFile(e) == File(e) {
      assert ResolvesIn(log, File(e), 0);
    } else {
      var steps: nat :| ResolvesIn(log, ParentFile(e), steps);
      assert ResolvesIn(log, File(e), steps + 1);
    }
  }

  // --------------------------------------------------- one walk keeps closure

  /** No name write below the root is refused after one was accepted. */
  ghost predicate Orderly(writes: seq<bool>, depth: nat) {
    forall i, j :: 0 <= i < j < depth && j < |writes| && writes[i] ==> writes[j]
  }

  ghost predicate BelowRootAccepted(writes: seq<bool>, depth: nat) {
    forall j :: 0 <= j < depth && j < |writes| ==> writes[j]
  }

  /** Mid-walk at `d`: every listed inode resolves, or was mapped below `d` in
      this walk and waits for `d` to be named. */
  ghost predicate Settled(m: seq<Inode>, log: seq<NameEvent>, d: Dentry, pending: bool) {
    forall k :: k in m ==>
      Resolves(log, k) || (pending && k !in Ancestry(d) && LeadsTo(log, k, InodeOf(d)))
  }

  lemma {:induction false} EventLinks(d: Dentry)
    ensures File(EventOf(d)) == InodeOf(d) && ParentFile(EventOf(d)) == InodeOf(Parent(d))
  {}

  lemma {:induction false} ProperParent(d: Dentry)
    requires ProperTree(d) && d.Child?
    ensures ProperTree(d.parent) && InodeOf(d) !in Ancestry(d.parent)
  {
    UniqueTail(Ancestry(d), 1);
    assert Ancestry(d)[1..] == Ancestry(d.parent);
    HeadDiffers(Ancestry(d));
  }

  lemma {:induction false} TouchMembers(m: seq<Inode>, n: nat, x: Inode, ok: bool)
    ensures forall k :: k in Touch(m, n, x, ok) ==> k in m || (k == x && (ok || x in m))
  {
    WithoutMembers(m, x);
  }

  /** Climbing one level below the root keeps the walk settled. */
  lemma {:induction false} SettledUp(m: seq<Inode>, n: nat, log: seq<NameEvent>, d: Dentry, ok: bool, pending: bool)
    requires Settled(m, log, d, pending) && ProperTree(d) && d.Child? && InodeOf(d) !in m
    requires pending ==> ok
    ensures var more := log + (if ok then [EventOf(d)] else []);
            Settled(Touch(m, n, InodeOf(d), ok), more, d.parent, ok)
  {
    var x := InodeOf(d);
    var more := log + (if ok then [EventOf(d)] else []);
    ProperParent(d);
    EventLinks(d);
    TouchMembers(m, n, x, ok);
    forall k | k in Touch(m, n, x, ok)
      ensures Resolves(more, k) || (ok && k !in Ancestry(d.parent) && LeadsTo(more, k, InodeOf(d.parent)))
    {
      if k == x {
        assert EventOf(d) in more;
        assert LeadsIn(more, x, InodeOf(d.parent), 0);
      } else if Resolves(log, k) {
        ResolvesGrows(log, more, k);
      } else {
        var steps: nat :| LeadsIn(log, k, x, steps);
        LeadsMore(log, more, k, x, steps);
        LeadsOn(more, k, EventOf(d), steps);
        assert Ancestry(d)[1..] == Ancestry(d.parent);
      }
    }
  }

  lemma {:induction false} SettledAtRoot(m: seq<Inode>, n: nat, log: seq<NameEvent>, d: Dentry, ok: bool, pending: bool)
    requires Settled(m, log, d, pending) && d.Root? && InodeOf(d) !in m
    ensures var more := log + (if ok then [EventOf(d)] else []);
            && Settled(Touch(m, n, InodeOf(d), ok), more, d, pending)
            && (ok ==> Resolves(more, InodeOf(d)))
  {
    var x := InodeOf(d);
    var more := log + (if ok then [EventOf(d)] else []);
    EventLinks(d);
    TouchMembers(m, n, x, ok);
    if ok {
      assert EventOf(d) in more;
      ResolvesByEvent(more, EventOf(d));
    }
    forall k | k in Touch(m, n, x, ok) && k != x
      ensures Resolves(more, k) || (pending && k !in Ancestry(d) && LeadsTo(more, k, x))
    {
      if Resolves(log, k) {
        ResolvesGrows(log, more, k);
      } else {
        var steps: nat :| LeadsIn(log, k, x, steps);
        LeadsMore(log, more, k, x, steps);
      }
    }
  }

  /** The walk from `d` settles everything, whatever is evicted on the way and
      however often the root's name write is refused. */
  lemma {:induction false} WalkCloses(m: seq<Inode>, n: nat, d: Dentry, writes: seq<bool>,
                                      log: seq<NameEvent>, pending: bool)
    requires n >= 1 && ProperTree(d) && Settled(m, log, d, pending)
    requires Orderly(writes, Depth(d)) && (pending ==> BelowRootAccepted(writes, Depth(d)))
    ensures var r := Walk(m, n, d, writes);
            && Closed(r.listed, log + r.events)
            && (pending || d.Root? || Accepted(writes) ==> Resolves(log + r.events, InodeOf(d)))
    decreases Depth(d), |writes|, if InodeOf(d) in m then 0 else 1
  {
    var x := InodeOf(d);
    if x in m {
      assert log + [] == log;
      TouchMembers(m, n, x, false);
      forall k | k in m ensures Resolves(log, k) {
        assert x in Ancestry(d);
        if !Resolves(log, k) { ResolvesVia(log, k, x); }
      }
    } else {
      PromotedFirst(m, n, x);
      WalkClosesOn(m, n, d, writes, log, pending);
    }
  }

  lemma {:induction false} WalkClosesOn(m: seq<Inode>, n: nat, d: Dentry, writes: seq<bool>,
                                        log: seq<NameEvent>, pending: bool)
    requires n >= 1 && ProperTree(d) && Settled(m, log, d, pending) && InodeOf(d) !in m
    requires Orderly(writes, Depth(d)) && (pending ==> BelowRootAccepted(writes, Depth(d)))
    ensures var r := Walk(m, n, d, writes);
            && Closed(r.listed, log + r.events)
            && (pending || d.Root? || Accepted(writes) ==> Resolves(log + r.events, InodeOf(d)))
    decreases Depth(d), |writes|, 1, 0
  {
    var x, ok, later := InodeOf(d), Accepted(writes), Later(writes);
    var named := if ok then [EventOf(d)] else [];
    var m' := Touch(m, n, x, ok);
    var r := Walk(m', n, Parent(d), later);
    assert log + (named + r.events) == (log + named) + r.events;
    PromotedFirst(m, n, x);
    if d.Root? {
      SettledAtRoot(m, n, log, d, ok, pending);
      WalkCloses(m', n, d, later, log + named, pending);
    } else {
      SettledUp(m, n, log, d, ok, pending);
      ProperParent(d);
      LaterOrderly(writes, Depth(d));
      WalkCloses(m', n, d.parent, later, log + named, ok);
      EventLinks(d);
      if ok {
        assert EventOf(d) in (log + named) + r.events;
        ResolvesByEvent((log + named) + r.events, EventOf(d));
      }
    }
  }

  lemma {:induction false} LaterOrderly(writes: seq<bool>, depth: nat)
    requires Orderly(writes, depth) && depth > 0
    ensures Orderly(Later(writes), depth - 1)
    ensures Accepted(writes) ==> BelowRootAccepted(Later(writes), depth - 1)
  {}

  // ------------------------------------------------------- every run of walks

  datatype Walked = Walked(dentry: Dentry, writes: seq<bool>)

  /** The CPU's recency list and its name-event log after a run of walks from a
      fresh tracer.  The tree may differ from one walk to the next. */
  function RunWalks(n: nat, ws: seq<Walked>): (r: (seq<Inode>, seq<NameEvent>))
    requires n >= 1
  {
    if ws == [] then ([], [])
    else
      var last := ws[|ws| - 1];
      var (m, log) := RunWalks(n, ws[..|ws| - 1]);
      var w := Walk(m, n, last.dentry, last.writes);
      (w.listed, log + w.events)
  }

  /** A new tracer and the walks one after the other on its hash chains and its
      list.  What is proved of `RunWalks` holds of them. */
  method TraceRun(size: nat, chains: nat, hashFn: nat -> nat, ws: seq<Walked>)
    returns (t: Tracer, log: seq<NameEvent>)
    requires size >= 1 && chains >= 1
    ensures fresh(t) && t.Valid() && t.entries.Length == size
    ensures t.Model() == RunWalks(size, ws).0 && log == RunWalks(size, ws).1
  {
    t := new Tracer(size, chains, hashFn);
    log := [];
    var i := 0;
    while i < |ws|
      invariant 0 <= i <= |ws| && fresh(t) && fresh(t.entries) && fresh(t.buckets)
      invariant t.Valid() && t.entries.Length == size
      invariant t.Model() == RunWalks(size, ws[..i]).0 && log == RunWalks(size, ws[..i]).1
    {
      assert ws[..i + 1][..i] == ws[..i];
      var events, lookups, taken, dropped := TraceInode(t, Some(ws[i].dentry), ws[i].writes);
      log := log + events;
      i := i + 1;
    }
    assert ws[..|ws|] == ws;
  }

  ghost predicate Faithful(w: Walked) {
    ProperTree(w.dentry) && Orderly(w.writes, Depth(w.dentry))
  }

  /** Path completeness: between walks, every listed inode resolves to a full
      path in the log, evictions and root retries included. */
  lemma {:induction false} PathsComplete(n: nat, ws: seq<Walked>)
    requires n >= 1 && forall i :: 0 <= i < |ws| ==> Faithful(ws[i])
    ensures Closed(RunWalks(n, ws).0, RunWalks(n, ws).1)
  {
    if ws != [] {
      var k := |ws| - 1;
      PathsComplete(n, ws[..k]);
      var (m, log) := RunWalks(n, ws[..k]);
      assert Faithful(ws[k]);
      WalkCloses(m, n, ws[k].dentry, ws[k].writes, log, false);
    }
  }

  /** So a walk whose first write is accepted, in such a run, leaves its file with
      a complete path, although it stopped at the first listed ancestor. */
  lemma {:induction false} WalkedFileResolves(n: nat, ws: seq<Walked>)
    requires n >= 1 && ws != [] && forall i :: 0 <= i < |ws| ==> Faithful(ws[i])
    requires Accepted(ws[|ws| - 1].writes)
    ensures Resolves(RunWalks(n, ws).1, InodeOf(ws[|ws| - 1].dentry))
  {
    var k := |ws| - 1;
    PathsComplete(n, ws[..k]);
    var (m, log) := RunWalks(n, ws[..k]);
    assert Faithful(ws[k]);
    WalkCloses(m, n, ws[k].dentry, ws[k].writes, log, false);
  }
}
