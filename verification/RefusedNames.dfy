/**
  Exactly when a refused name event costs a path.

  A log is complete for a cache if every inode named in it resolves and every
  listed inode is named in it.  A walk keeps that, for any cache, full or not,
  and for any log, if and only if wherever it names one level and is refused the
  next one up, one of the two was named in the log before.
 */
module RefusedNames {
  import opened RecencyList
  import opened PathWalk
  import opened PathCompleteness

  ghost predicate Named(log: seq<NameEvent>, k: Inode) {
    exists e :: e in log && File(e) == k
  }

  ghost predicate Complete(m: seq<Inode>, log: seq<NameEvent>) {
    && (forall k :: Named(log, k) ==> Resolves(log, k))
    && (forall k :: k in m ==> Named(log, k))
  }

  /** How many levels the walk misses before it finds one listed or is at the root. */
  function Misses(m: seq<Inode>, n: nat, d: Dentry, writes: seq<bool>): (l: nat)
    ensures l <= Depth(d)
    decreases Depth(d)
  {
    if d.Root? || InodeOf(d) in m then 0
    else 1 + Misses(Touch(m, n, InodeOf(d), Accepted(writes)), n, d.parent, Later(writes))
  }

  /** Of the `l` levels missed, none is named with the next one refused unless the
      log already names one of the two. */
  ghost predicate Harmless(log: seq<NameEvent>, d: Dentry, writes: seq<bool>, l: nat)
    requires l <= Depth(d)
  {
    forall i, j :: 0 <= i && j == i + 1 < l && Taken(writes, i) && !Taken(writes, j) ==>
      Named(log, Ancestry(d)[i]) || Named(log, Ancestry(d)[j])
  }

  // ------------------------------------------------- which names a walk leaves

  /** At the root, which is not listed, the walk goes on until it has named it. */
  lemma {:induction false} RootWalk(m: seq<Inode>, n: nat, d: Dentry, writes: seq<bool>)
    requires n >= 1 && d.Root? && InodeOf(d) !in m
    ensures Walk(m, n, d, writes).events == [EventOf(d)]
    decreases |writes|
  {
    var x, ok := InodeOf(d), Accepted(writes);
    var m' := Touch(m, n, x, ok);
    if ok {
      PromotedFirst(m, n, x);
      assert Walk(m', n, d, Later(writes)).events == [];
    } else {
      WithoutMembers(m, x);
      RootWalk(m', n, d, Later(writes));
    }
  }

  /** `e` is the name of an ancestor up to level `l`, accepted if below it. */
  ghost predicate OwnName(e: NameEvent, d: Dentry, writes: seq<bool>, l: nat)
    requires l <= Depth(d)
  {
    exists i :: 0 <= i <= l && e == EventOf(Up(d, i)) && (i < l ==> Taken(writes, i))
  }

  lemma {:induction false} OwnNameUp(e: NameEvent, d: Dentry, writes: seq<bool>, l: nat)
    requires d.Child? && 0 < l <= Depth(d) && OwnName(e, d.parent, Later(writes), l - 1)
    ensures OwnName(e, d, writes, l)
  {
    var i :| 0 <= i <= l - 1 && e == EventOf(Up(d.parent, i)) && (i < l - 1 ==> Taken(Later(writes), i));
    assert e == EventOf(Up(d, i + 1));
  }

  /** A walk leaves no other events than the names of its levels. */
  lemma {:induction false} EventIsName(m: seq<Inode>, n: nat, d: Dentry, writes: seq<bool>, e: NameEvent)
    requires n >= 1 && e in Walk(m, n, d, writes).events
    ensures OwnName(e, d, writes, Misses(m, n, d, writes))
    decreases Depth(d)
  {
    var m' := Touch(m, n, InodeOf(d), Accepted(writes));
    assert Up(d, 0) == d;
    if d.Root? {
      RootWalk(m, n, d, writes);
    } else if e in Walk(m', n, d.parent, Later(writes)).events {
      EventIsName(m', n, d.parent, Later(writes), e);
      OwnNameUp(e, d, writes, Misses(m, n, d, writes));
    }
  }

  /** It leaves the name of every level whose write was accepted. */
  lemma {:induction false} TakenIsNamed(m: seq<Inode>, n: nat, d: Dentry, writes: seq<bool>, i: nat)
    requires n >= 1 && i < Misses(m, n, d, writes) && Taken(writes, i)
    ensures EventOf(Up(d, i)) in Walk(m, n, d, writes).events
    decreases Depth(d)
  {
    if i > 0 {
      TakenIsNamed(Touch(m, n, InodeOf(d), Accepted(writes)), n, d.parent, Later(writes), i - 1);
    }
  }

  /** What is listed afterwards was listed before or is named by the walk. */
  lemma {:induction false} ListedIsNamed(m: seq<Inode>, n: nat, d: Dentry, writes: seq<bool>, log: seq<NameEvent>)
    requires n >= 1 && forall k :: k in m ==> Named(log, k)
    requires forall e :: e in Walk(m, n, d, writes).events ==> e in log
    ensures forall k :: k in Walk(m, n, d, writes).listed ==> Named(log, k)
    decreases Depth(d), |writes|, if InodeOf(d) in m then 0 else 1
  {
    var x, ok := InodeOf(d), Accepted(writes);
    TouchMembers(m, n, x, ok);
    if x !in m {
      PromotedFirst(m, n, x);
      EventLinks(d);
      if ok { assert EventOf(d) in Walk(m, n, d, writes).events; }
      ListedIsNamed(Touch(m, n, x, ok), n, Parent(d), Later(writes), log);
    }
  }

  // --------------------------------------------------- a harmless walk resolves

  /** Every listed ancestor of `d` is named. */
  ghost predicate NamedAncestors(m: seq<Inode>, d: Dentry, log: seq<NameEvent>) {
    forall a :: a in m && a in Ancestry(d) ==> Named(log, a)
  }

  /** Climbing past a miss keeps what `LevelResolves` needs. */
  lemma {:induction false} NamedAbove(m: seq<Inode>, n: nat, d: Dentry, ok: bool, log: seq<NameEvent>)
    requires ProperTree(d) && d.Child? && NamedAncestors(m, d, log)
    ensures ProperTree(d.parent) && NamedAncestors(Touch(m, n, InodeOf(d), ok), d.parent, log)
  {
    ProperParent(d);
    TouchMembers(m, n, InodeOf(d), ok);
    assert Ancestry(d)[1..] == Ancestry(d.parent);
  }

  lemma {:induction false} HarmlessAbove(log: seq<NameEvent>, d: Dentry, writes: seq<bool>, l: nat)
    requires d.Child? && l < Depth(d) && Harmless(log, d, writes, l + 1)
    ensures Harmless(log, d.parent, Later(writes), l)
  {
    forall i, j | 0 <= i && j == i + 1 < l && Taken(Later(writes), i) && !Taken(Later(writes), j)
      ensures Named(log, Ancestry(d.parent)[i]) || Named(log, Ancestry(d.parent)[j])
    {
      assert Taken(writes, i + 1) && !Taken(writes, j + 1);
    }
  }

  /** After a harmless walk every level it named resolves, and so does the level
      it stopped at.  `all` holds the earlier log and the walk's events. */
  lemma {:induction false} LevelResolves(m: seq<Inode>, n: nat, d: Dentry, writes: seq<bool>,
                                         log: seq<NameEvent>, all: seq<NameEvent>, i: nat)
    requires n >= 1 && ProperTree(d) && NamedAncestors(m, d, log)
    requires forall k :: Named(log, k) ==> Resolves(all, k)
    requires forall e :: e in Walk(m, n, d, writes).events ==> e in all
    requires Harmless(log, d, writes, Misses(m, n, d, writes))
    requires i <= Misses(m, n, d, writes) && (i < Misses(m, n, d, writes) ==> Taken(writes, i))
    ensures Resolves(all, Ancestry(d)[i])
    decreases Depth(d)
  {
    var x, later := InodeOf(d), Later(writes);
    var m' := Touch(m, n, x, Accepted(writes));
    EventLinks(d);
    if x in m {
      assert x in Ancestry(d);
    } else if d.Root? {
      RootWalk(m, n, d, writes);
      assert EventOf(d) in Walk(m, n, d, writes).events;
      ResolvesByEvent(all, EventOf(d));
    } else {
      NamedAbove(m, n, d, Accepted(writes), log);
      HarmlessAbove(log, d, writes, Misses(m', n, d.parent, later));
      if i > 0 {
        LevelResolves(m', n, d.parent, later, log, all, i - 1);
      } else if !Named(log, x) {
        assert Ancestry(d)[1] == InodeOf(d.parent);
        if !Named(log, InodeOf(d.parent)) {
          assert 1 < Misses(m, n, d, writes) ==> Taken(writes, 1);
          LevelResolves(m', n, d.parent, later, log, all, 0);
        }
        assert EventOf(d) in Walk(m, n, d, writes).events;
        ResolvesByEvent(all, EventOf(d));
      }
    }
  }

  lemma {:induction false} HarmlessCompletes(m: seq<Inode>, n: nat, d: Dentry, writes: seq<bool>, log: seq<NameEvent>)
    requires n >= 1 && ProperTree(d) && Complete(m, log)
    requires Harmless(log, d, writes, Misses(m, n, d, writes))
    ensures Complete(Walk(m, n, d, writes).listed, log + Walk(m, n, d, writes).events)
  {
    var events, l := Walk(m, n, d, writes).events, Misses(m, n, d, writes);
    var all := log + events;
    forall k | Named(log, k) ensures Named(all, k) && Resolves(all, k) {
      var e :| e in log && File(e) == k;
      assert e in all;
      ResolvesGrows(log, all, k);
    }
    forall k | Named(all, k) && !Named(log, k) ensures Resolves(all, k) {
      var e :| e in all && File(e) == k;
      EventIsName(m, n, d, writes, e);
      var i :| 0 <= i <= l && e == EventOf(Up(d, i)) && (i < l ==> Taken(writes, i));
      EventLinks(Up(d, i));
      LevelResolves(m, n, d, writes, log, all, i);
    }
    ListedIsNamed(m, n, d, writes, all);
  }

  // ------------------------------------------------------- a harmful one does not

  lemma {:induction false} AncestryDistinct(d: Dentry, i: nat, j: nat)
    requires ProperTree(d) && i <= Depth(d) && j <= Depth(d) && i != j
    ensures Ancestry(d)[i] != Ancestry(d)[j]
  {}

  /** An event of the walk naming level `i` is that level's own. */
  lemma {:induction false} NamesWhom(m: seq<Inode>, n: nat, d: Dentry, writes: seq<bool>, e: NameEvent, i: nat)
    requires n >= 1 && ProperTree(d) && i < Misses(m, n, d, writes)
    requires e in Walk(m, n, d, writes).events && File(e) == Ancestry(d)[i]
    ensures Taken(writes, i) && ParentFile(e) == Ancestry(d)[i + 1]
  {
    var l := Misses(m, n, d, writes);
    EventIsName(m, n, d, writes, e);
    var j :| 0 <= j <= l && e == EventOf(Up(d, j)) && (j < l ==> Taken(writes, j));
    EventLinks(Up(d, j));
    if j != i { AncestryDistinct(d, i, j); }
    UpNext(d, i);
  }

  /** A level that only this walk names, under a parent that nothing names. */
  lemma {:induction false} LostIn(m: seq<Inode>, n: nat, d: Dentry, writes: seq<bool>, log: seq<NameEvent>, i: nat)
    requires n >= 1 && ProperTree(d) && i + 1 < Misses(m, n, d, writes) && !Taken(writes, i + 1)
    requires !Named(log, Ancestry(d)[i]) && !Named(log, Ancestry(d)[i + 1])
    ensures !Resolves(log + Walk(m, n, d, writes).events, Ancestry(d)[i])
  {
    var all, k, p := log + Walk(m, n, d, writes).events, Ancestry(d)[i], Ancestry(d)[i + 1];
    AncestryDistinct(d, i, i + 1);
    forall e | e in all && File(e) == k ensures ParentFile(e) == p {
      NamesWhom(m, n, d, writes, e, i);
    }
    forall e | e in all ensures File(e) != p {
      if File(e) == p { NamesWhom(m, n, d, writes, e, i + 1); }
    }
    forall steps: nat ensures !ResolvesIn(all, k, steps) {
      DeadEnd(all, k, p, steps);
    }
  }

  lemma {:induction false} DeadEnd(log: seq<NameEvent>, k: Inode, p: Inode, steps: nat)
    requires k != p && forall e :: e in log ==> File(e) != p && (File(e) == k ==> ParentFile(e) == p)
    ensures !ResolvesIn(log, k, steps)
  {
    if steps > 0 { assert !ResolvesIn(log, p, steps - 1); }
  }

  /** The exact condition for one walk. */
  lemma {:induction false} CompleteIff(m: seq<Inode>, n: nat, d: Dentry, writes: seq<bool>, log: seq<NameEvent>)
    requires n >= 1 && ProperTree(d) && Complete(m, log)
    ensures var r := Walk(m, n, d, writes);
            Complete(r.listed, log + r.events) <==> Harmless(log, d, writes, Misses(m, n, d, writes))
  {
    var l, all := Misses(m, n, d, writes), log + Walk(m, n, d, writes).events;
    if Harmless(log, d, writes, l) {
      HarmlessCompletes(m, n, d, writes, log);
    } else {
      var i, j :| 0 <= i && j == i + 1 < l && Taken(writes, i) && !Taken(writes, j)
        && !Named(log, Ancestry(d)[i]) && !Named(log, Ancestry(d)[j]);
      TakenIsNamed(m, n, d, writes, i);
      EventLinks(Up(d, i));
      assert EventOf(Up(d, i)) in all;
      LostIn(m, n, d, writes, log, i);
    }
  }

  // ------------------------------------------------------------- every run

  /** The log is complete after the first `j` walks. */
  ghost predicate CompleteAt(n: nat, ws: seq<Walked>, j: nat)
    requires n >= 1 && j <= |ws|
  {
    Complete(RunWalks(n, ws[..j]).0, RunWalks(n, ws[..j]).1)
  }

  /** Walk `j` of the run is harmless where it starts. */
  ghost predicate HarmlessAt(n: nat, ws: seq<Walked>, j: nat)
    requires n >= 1 && j < |ws|
  {
    var (m, log) := RunWalks(n, ws[..j]);
    Harmless(log, ws[j].dentry, ws[j].writes, Misses(m, n, ws[j].dentry, ws[j].writes))
  }

  lemma {:induction false} CompleteNext(n: nat, ws: seq<Walked>, j: nat)
    requires n >= 1 && j < |ws| && ProperTree(ws[j].dentry) && CompleteAt(n, ws, j)
    ensures CompleteAt(n, ws, j + 1) <==> HarmlessAt(n, ws, j)
  {
    var (m, log) := RunWalks(n, ws[..j]);
    assert ws[..j + 1][..j] == ws[..j];
    CompleteIff(m, n, ws[j].dentry, ws[j].writes, log);
  }

  lemma {:induction false} HarmlessRun(n: nat, ws: seq<Walked>, j: nat)
    requires n >= 1 && j <= |ws| && forall i :: 0 <= i < |ws| ==> ProperTree(ws[i].dentry)
    requires forall i :: 0 <= i < |ws| ==> HarmlessAt(n, ws, i)
    ensures CompleteAt(n, ws, j)
  {
    if j > 0 {
      HarmlessRun(n, ws, j - 1);
      CompleteNext(n, ws, j - 1);
    }
  }

  /** The log is complete after every walk of a run if and only if every walk is
      harmless, whatever is evicted and however the tree changes. */
  lemma {:induction false} RunCompleteIff(n: nat, ws: seq<Walked>)
    requires n >= 1 && forall i :: 0 <= i < |ws| ==> ProperTree(ws[i].dentry)
    ensures (forall j :: 0 <= j <= |ws| ==> CompleteAt(n, ws, j)) <==>
            (forall j :: 0 <= j < |ws| ==> HarmlessAt(n, ws, j))
  {
    if forall j :: 0 <= j < |ws| ==> HarmlessAt(n, ws, j) {
      forall j | 0 <= j <= |ws| ensures CompleteAt(n, ws, j) {
        HarmlessRun(n, ws, j);
      }
    } else {
      var j :| 0 <= j < |ws| && !HarmlessAt(n, ws, j);
      if CompleteAt(n, ws, j) { CompleteNext(n, ws, j); }
    }
  }

  /** A walk in which no name below the root is refused after an accepted one is
      harmless, whatever the log; so runs of such walks stay complete. */
  lemma {:induction false} OrderlyRunsComplete(n: nat, ws: seq<Walked>, j: nat)
    requires n >= 1 && j <= |ws| && forall i :: 0 <= i < |ws| ==> Faithful(ws[i])
    ensures CompleteAt(n, ws, j)
  {
    forall i | 0 <= i < |ws| ensures ProperTree(ws[i].dentry) && HarmlessAt(n, ws, i) {
      assert Faithful(ws[i]);
    }
    HarmlessRun(n, ws, j);
  }

  /** With room for two, naming the root after `x` keeps `x` listed. */
  lemma {:induction false} RootBehind(n: nat, x: Inode, root: Dentry)
    requires n >= 2 && root.Root? && Id(x) != Id(InodeOf(root))
    ensures Walk([x], n, root, []).listed == [InodeOf(root), x]
  {
    var z := InodeOf(root);
    assert Touch([x], n, z, true) == [z, x];
    assert Promote([z, x], n, z) == [z, x];
    assert Walk([z, x], n, root, []).listed == [z, x];
  }

  /** A walk from an empty cache that names `d`, is refused its directory and then
      names the root leaves `d` and the root listed. */
  lemma {:induction false} RefusedOnce(n: nat, d: Dentry, dir: Dentry, root: Dentry)
    requires n >= 2 && d.Child? && d.parent == dir && dir.Child? && dir.parent == root && root.Root?
    requires Id(InodeOf(d)) != Id(InodeOf(dir)) && Id(InodeOf(d)) != Id(InodeOf(root))
    ensures Walk([], n, d, [true, false]).listed == [InodeOf(root), InodeOf(d)]
    ensures Misses([], n, d, [true, false]) == 2
  {
    var x := InodeOf(d);
    assert [true, false][1..] == [false] && [false][1..] == [];
    assert Touch([], n, x, true) == [x];
    assert Touch([x], n, InodeOf(dir), false) == [x];
    RootBehind(n, x, root);
    assert Misses([x], n, dir, [false]) == 1;
  }

  /** So a file two levels below the root stays cached without a path. */
  lemma {:induction false} RefusedIsLost(n: nat, d: Dentry)
    requires n >= 2 && Depth(d) == 2 && ProperTree(d)
    ensures !Closed(Walk([], n, d, [true, false]).listed, Walk([], n, d, [true, false]).events)
  {
    var r := Walk([], n, d, [true, false]);
    var dir := d.parent;
    HeadDiffers(Ancestry(d));
    assert Ancestry(d)[1..] == [InodeOf(dir)] + [InodeOf(dir.parent)];
    RefusedOnce(n, d, dir, dir.parent);
    LostIn([], n, d, [true, false], [], 0);
    assert [] + r.events == r.events;
    assert InodeOf(d) in r.listed;
  }

  /** The smallest loss: a file is named, its directory's name is refused. */
  lemma {:induction false} RefusedDirectoryIsLost()
    ensures var t := Timespec(0, 0);
            var d := Child(3, t, "file", Child(2, t, "dir", Root(1, t, "/", 8)));
            !Closed(Walk([], 4, d, [true, false]).listed, Walk([], 4, d, [true, false]).events)
  {
    var t := Timespec(0, 0);
    var dir := Child(2, t, "dir", Root(1, t, "/", 8));
    var d := Child(3, t, "file", dir);
    assert Ancestry(dir) == [InodeOf(dir), InodeOf(dir.parent)];
    assert Ancestry(d) == [InodeOf(d), InodeOf(dir), InodeOf(dir.parent)];
    RefusedIsLost(4, d);
  }
}
