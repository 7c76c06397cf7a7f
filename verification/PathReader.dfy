/**
  What a reader makes of the log: over a fixed directory tree, the path of every
  inode that was ever named, evicted ones included.
 */
module PathReader {
  import opened RecencyList
  import opened PathWalk
  import opened PathCompleteness
  import opened RefusedNames

  /** `up` is one fixed tree: the directory entries it gives for inodes agree
      on their parents. */
  ghost predicate Tree(up: Inode -> Dentry) {
    forall k :: up(k).Child? ==> up(InodeOf(up(k).parent)) == up(k).parent
  }

  /** The walk starts at an entry of the tree, on a proper path. */
  ghost predicate InTree(up: Inode -> Dentry, d: Dentry) {
    up(InodeOf(d)) == d && ProperTree(d)
  }

  /** Every event names an entry of the tree. */
  ghost predicate NamesTree(log: seq<NameEvent>, up: Inode -> Dentry) {
    forall e :: e in log ==>
      var d := up(File(e));
      e == EventOf(d) && InodeOf(d) == File(e) && ProperTree(d)
  }

  lemma {:induction false} WalkNamesTree(m: seq<Inode>, n: nat, d: Dentry, writes: seq<bool>, up: Inode -> Dentry)
    requires n >= 1 && Tree(up) && InTree(up, d)
    ensures NamesTree(Walk(m, n, d, writes).events, up)
    decreases Depth(d), |writes|, if InodeOf(d) in m then 0 else 1
  {
    var x, ok := InodeOf(d), Accepted(writes);
    if x !in m {
      PromotedFirst(m, n, x);
      EventLinks(d);
      if d.Child? { ProperParent(d); }
      WalkNamesTree(Touch(m, n, x, ok), n, Parent(d), Later(writes), up);
    }
  }

  lemma {:induction false} RunNamesTree(n: nat, ws: seq<Walked>, up: Inode -> Dentry)
    requires n >= 1 && Tree(up) && forall i :: 0 <= i < |ws| ==> InTree(up, ws[i].dentry)
    ensures NamesTree(RunWalks(n, ws).1, up)
  {
    if ws != [] {
      var k := |ws| - 1;
      RunNamesTree(n, ws[..k], up);
      WalkNamesTree(RunWalks(n, ws[..k]).0, n, ws[k].dentry, ws[k].writes, up);
    }
  }

  /** The names from the root down to `d`. */
  function PathOf(d: Dentry): seq<string> {
    (if d.Root? then [] else PathOf(d.parent)) + [d.name]
  }

  /** What a reader of the log may take for the path of inode `k`: follow some
      event naming it to the parent that event gives, until one names itself. */
  ghost predicate Reads(log: seq<NameEvent>, k: Inode, path: seq<string>)
    decreases |path|
  {
    && path != []
    && var rest := path[..|path| - 1];
       exists e :: e in log && File(e) == k && e.name == path[|path| - 1] &&
         if ParentFile(e) == k then rest == [] else Reads(log, ParentFile(e), rest)
  }

  /** In a fixed tree an event for `k` is the name of `k`, and it names itself
      only at the root. */
  lemma {:induction false} EventInTree(log: seq<NameEvent>, up: Inode -> Dentry, e: NameEvent)
    requires Tree(up) && NamesTree(log, up) && e in log
    ensures var d := up(File(e));
            && e.name == d.name && (ParentFile(e) == File(e) <==> d.Root?)
            && (d.Child? ==> up(ParentFile(e)) == d.parent)
  {
    var d := up(File(e));
    EventLinks(d);
    if d.Child? {
      ProperParent(d);
      assert InodeOf(d.parent) in Ancestry(d.parent);
    }
  }

  lemma {:induction false} ReadsOnlyPath(log: seq<NameEvent>, up: Inode -> Dentry, k: Inode, path: seq<string>)
    requires Tree(up) && NamesTree(log, up) && Reads(log, k, path)
    ensures path == PathOf(up(k))
    decreases |path|
  {
    var rest := path[..|path| - 1];
    var e :| e in log && File(e) == k && e.name == path[|path| - 1] &&
      if ParentFile(e) == k then rest == [] else Reads(log, ParentFile(e), rest);
    EventInTree(log, up, e);
    if up(k).Child? { ReadsOnlyPath(log, up, ParentFile(e), rest); }
    assert path == rest + [path[|path| - 1]];
  }

  lemma {:induction false} ReadsPath(log: seq<NameEvent>, up: Inode -> Dentry, k: Inode, steps: nat)
    requires Tree(up) && NamesTree(log, up) && ResolvesIn(log, k, steps)
    ensures Reads(log, k, PathOf(up(k)))
    decreases steps
  {
    var e :| e in log && File(e) == k &&
      (ParentFile(e) == k || (steps > 0 && ResolvesIn(log, ParentFile(e), steps - 1)));
    EventInTree(log, up, e);
    var path := PathOf(up(k));
    if up(k).Child? { ReadsPath(log, up, ParentFile(e), steps - 1); }
    assert path[..|path| - 1] == if up(k).Root? then [] else PathOf(up(k).parent);
  }

  lemma {:induction false} ReadsResolve(log: seq<NameEvent>, k: Inode, path: seq<string>)
    requires Reads(log, k, path)
    ensures Resolves(log, k)
    decreases |path|
  {
    var rest := path[..|path| - 1];
    var e :| e in log && File(e) == k && e.name == path[|path| - 1] &&
      if ParentFile(e) == k then rest == [] else Reads(log, ParentFile(e), rest);
    if ParentFile(e) != k { ReadsResolve(log, ParentFile(e), rest); }
    ResolvesByEvent(log, e);
  }

  /** In a fixed tree a named inode resolves exactly if the reader gets its path. */
  lemma {:induction false} ResolvesIffRead(log: seq<NameEvent>, up: Inode -> Dentry, k: Inode)
    requires Tree(up) && NamesTree(log, up)
    ensures Resolves(log, k) <==> Reads(log, k, PathOf(up(k)))
  {
    if Resolves(log, k) {
      var steps: nat :| ResolvesIn(log, k, steps);
      ReadsPath(log, up, k, steps);
    }
    if Reads(log, k, PathOf(up(k))) { ReadsResolve(log, k, PathOf(up(k))); }
  }

  /** The tracer's promise to its reader: after any run of harmless walks over a
      fixed tree, the log yields one path for every inode named in it, and it is
      the path of that inode in the tree. */
  lemma {:induction false} ReaderGetsPath(n: nat, ws: seq<Walked>, up: Inode -> Dentry, k: Inode, path: seq<string>)
    requires n >= 1 && Tree(up) && forall i :: 0 <= i < |ws| ==> InTree(up, ws[i].dentry)
    requires forall i :: 0 <= i < |ws| ==> HarmlessAt(n, ws, i)
    requires Named(RunWalks(n, ws).1, k)
    ensures Reads(RunWalks(n, ws).1, k, path) <==> path == PathOf(up(k))
  {
    var log := RunWalks(n, ws).1;
    HarmlessRun(n, ws, |ws|);
    assert ws[..|ws|] == ws;
    RunNamesTree(n, ws, up);
    ResolvesIffRead(log, up, k);
    if Reads(log, k, path) { ReadsOnlyPath(log, up, k, path); }
  }

  lemma {:induction false} RunListsNamed(n: nat, ws: seq<Walked>)
    requires n >= 1
    ensures forall k :: k in RunWalks(n, ws).0 ==> Named(RunWalks(n, ws).1, k)
  {
    if ws != [] {
      var last := ws[|ws| - 1];
      var (m, log) := RunWalks(n, ws[..|ws| - 1]);
      var all := log + Walk(m, n, last.dentry, last.writes).events;
      RunListsNamed(n, ws[..|ws| - 1]);
      forall k | k in m ensures Named(all, k) {
        var e :| e in log && File(e) == k;
        assert e in all;
      }
      ListedIsNamed(m, n, last.dentry, last.writes, all);
    }
  }

  /** The reader gets the path of every inode named in the log. */
  ghost predicate AllRead(log: seq<NameEvent>, up: Inode -> Dentry) {
    forall k :: Named(log, k) ==> Reads(log, k, PathOf(up(k)))
  }

  lemma {:induction false} AllReadIffComplete(n: nat, ws: seq<Walked>, up: Inode -> Dentry)
    requires n >= 1 && Tree(up) && forall i :: 0 <= i < |ws| ==> InTree(up, ws[i].dentry)
    ensures AllRead(RunWalks(n, ws).1, up) <==> Complete(RunWalks(n, ws).0, RunWalks(n, ws).1)
  {
    var log := RunWalks(n, ws).1;
    RunNamesTree(n, ws, up);
    RunListsNamed(n, ws);
    forall k ensures Resolves(log, k) <==> Reads(log, k, PathOf(up(k))) {
      ResolvesIffRead(log, up, k);
    }
  }

  /** And exactly then: the reader has all paths after every walk of a run if and
      only if every walk is harmless. */
  lemma {:induction false} AllReadIffHarmless(n: nat, ws: seq<Walked>, up: Inode -> Dentry)
    requires n >= 1 && Tree(up) && forall i :: 0 <= i < |ws| ==> InTree(up, ws[i].dentry)
    ensures (forall j :: 0 <= j <= |ws| ==> AllRead(RunWalks(n, ws[..j]).1, up)) <==>
            (forall j :: 0 <= j < |ws| ==> HarmlessAt(n, ws, j))
  {
    RunCompleteIff(n, ws);
    forall j | 0 <= j <= |ws| ensures AllRead(RunWalks(n, ws[..j]).1, up) <==> CompleteAt(n, ws, j) {
      AllReadIffComplete(n, ws[..j], up);
    }
  }
}
