/**
  Runs of walks as runs of visits to the recency list: how long a walk is, what
  each of its lookups finds, and when an inode is named a second time.
 */
module WalkVisits {
  import opened Common
  import opened RecencyList
  import opened PathWalk
  import opened PathCompleteness

  // ------------------------------------------------------ length of the walk

  /** Refused writes at the front. */
  function Refusals(writes: seq<bool>): nat {
    if writes == [] || writes[0] then 0 else 1 + Refusals(writes[1..])
  }

  /** The writes left when the walk from depth `depth` stands at the root. */
  function AtRoot(writes: seq<bool>, depth: nat): seq<bool> {
    if |writes| <= depth then [] else writes[depth..]
  }

  /** A walk of depth `d` looks up at most d + 2 inodes plus one for each
      refused attempt to name the root. */
  lemma {:induction false} WalkLength(m: seq<Inode>, n: nat, d: Dentry, writes: seq<bool>)
    requires n >= 1
    ensures Walk(m, n, d, writes).lookups <= Depth(d) + 2 + Refusals(AtRoot(writes, Depth(d)))
    decreases Depth(d), |writes|, if InodeOf(d) in m then 0 else 1
  {
    var x, ok, later := InodeOf(d), Accepted(writes), Later(writes);
    if x !in m {
      PromotedFirst(m, n, x);
      var m' := Touch(m, n, x, ok);
      WalkLength(m', n, Parent(d), later);
      if d.Child? {
        assert AtRoot(later, Depth(d) - 1) == AtRoot(writes, Depth(d));
      } else {
        assert AtRoot(writes, 0) == writes && AtRoot(later, 0) == later;
        if ok { assert Walk(m', n, d, later).lookups == 1; }
      }
    }
  }

  // ------------------------------------------------ walks are runs of visits

  /** The visits a walk makes, one per lookup. */
  ghost function Visits(m: seq<Inode>, n: nat, d: Dentry, writes: seq<bool>): seq<Visit>
    requires n >= 1
    decreases Depth(d), |writes|, if InodeOf(d) in m then 0 else 1
  {
    var x, ok := InodeOf(d), Accepted(writes);
    if x in m then [Visit(x, ok)]
    else
      PromotedFirst(m, n, x);
      [Visit(x, ok)] + Visits(Touch(m, n, x, ok), n, Parent(d), Later(writes))
  }

  /** The inodes named by `log`, in order. */
  function Files(log: seq<NameEvent>): (r: seq<Inode>)
    ensures |r| == |log| && forall i :: 0 <= i < |log| ==> r[i] == File(log[i])
  {
    seq(|log|, i requires 0 <= i < |log| => File(log[i]))
  }

  /** What a visit to list `m` traces: its inode, on a miss whose write was accepted. */
  function NewName(m: seq<Inode>, v: Visit): seq<Inode> {
    if v.ok && v.inode !in m then [v.inode] else []
  }

  /** The inodes traced by a run of visits. */
  ghost function Traced(n: nat, vs: seq<Visit>): seq<Inode> {
    if vs == [] then []
    else
      var last, before := vs[|vs| - 1], vs[..|vs| - 1];
      Traced(n, before) + NewName(After(n, before), last)
  }

  /** The list after visits `vs`, starting from `m`. */
  ghost function Fold(m: seq<Inode>, n: nat, vs: seq<Visit>): seq<Inode>
    decreases |vs|
  {
    if vs == [] then m else Fold(Touch(m, n, vs[0].inode, vs[0].ok), n, vs[1..])
  }

  /** The inodes those visits trace. */
  ghost function FoldTraced(m: seq<Inode>, n: nat, vs: seq<Visit>): seq<Inode>
    decreases |vs|
  {
    if vs == [] then []
    else NewName(m, vs[0]) + FoldTraced(Touch(m, n, vs[0].inode, vs[0].ok), n, vs[1..])
  }

  lemma {:induction false} FoldCons(m: seq<Inode>, n: nat, v: Visit, rest: seq<Visit>)
    ensures var m' := Touch(m, n, v.inode, v.ok);
            && Fold(m, n, [v] + rest) == Fold(m', n, rest)
            && FoldTraced(m, n, [v] + rest) == NewName(m, v) + FoldTraced(m', n, rest)
  {
    assert ([v] + rest)[1..] == rest;
  }

  lemma {:induction false} FilesNext(d: Dentry, ok: bool, rest: seq<NameEvent>)
    ensures Files((if ok then [EventOf(d)] else []) + rest)
            == (if ok then [InodeOf(d)] else []) + Files(rest)
  {
    EventLinks(d);
  }

  /** A walk changes the list exactly as its visits do, one after the other, and
      the events it leaves name exactly the visits traced. */
  lemma {:induction false} WalkIsVisits(m: seq<Inode>, n: nat, d: Dentry, writes: seq<bool>)
    requires n >= 1
    ensures var vs, r := Visits(m, n, d, writes), Walk(m, n, d, writes);
            && r.listed == Fold(m, n, vs)
            && r.lookups == |vs|
            && Files(r.events) == FoldTraced(m, n, vs)
    decreases Depth(d), |writes|, if InodeOf(d) in m then 0 else 1
  {
    var v := Visit(InodeOf(d), Accepted(writes));
    if v.inode in m {
      FoldCons(m, n, v, []);
    } else {
      PromotedFirst(m, n, v.inode);
      var m' := Touch(m, n, v.inode, v.ok);
      WalkIsVisits(m', n, Parent(d), Later(writes));
      FoldCons(m, n, v, Visits(m', n, Parent(d), Later(writes)));
      FilesNext(d, v.ok, Walk(m', n, Parent(d), Later(writes)).events);
    }
  }

  lemma {:induction false} ReachedAbove(d: Dentry, i: nat)
    ensures Reached(d, i + 1) == Reached(Parent(d), i)
  {}

  /** Which entries a walk looks up: the file, then its ancestors one by one, and
      the root as often as it takes. */
  lemma {:induction false} VisitsClimb(m: seq<Inode>, n: nat, d: Dentry, writes: seq<bool>, i: nat)
    requires n >= 1 && i < |Visits(m, n, d, writes)|
    ensures Visits(m, n, d, writes)[i] == Visit(InodeOf(Reached(d, i)), Taken(writes, i))
    decreases Depth(d), |writes|, if InodeOf(d) in m then 0 else 1
  {
    var x, ok, later := InodeOf(d), Accepted(writes), Later(writes);
    if i > 0 {
      PromotedFirst(m, n, x);
      var rest := Visits(Touch(m, n, x, ok), n, Parent(d), later);
      assert Visits(m, n, d, writes) == [Visit(x, ok)] + rest;
      VisitsClimb(Touch(m, n, x, ok), n, Parent(d), later, i - 1);
      ReachedAbove(d, i - 1);
      assert Taken(later, i - 1) == Taken(writes, i);
    }
  }

  /** What each lookup of a walk finds: all but the last miss, the last hits. */
  lemma {:induction false} LookupOutcomes(m: seq<Inode>, n: nat, d: Dentry, writes: seq<bool>, j: nat)
    requires n >= 1 && j < |Visits(m, n, d, writes)|
    ensures var vs := Visits(m, n, d, writes);
            vs[j].inode in Fold(m, n, vs[..j]) <==> j == |vs| - 1
    decreases Depth(d), |writes|, if InodeOf(d) in m then 0 else 1
  {
    var v := Visit(InodeOf(d), Accepted(writes));
    if v.inode !in m {
      PromotedFirst(m, n, v.inode);
      var m' := Touch(m, n, v.inode, v.ok);
      var rest := Visits(m', n, Parent(d), Later(writes));
      if j > 0 {
        LookupOutcomes(m', n, Parent(d), Later(writes), j - 1);
        FoldCons(m, n, v, rest[..j - 1]);
        assert ([v] + rest)[..j] == [v] + rest[..j - 1];
      }
    }
  }

  lemma {:induction false} AppendVisit(n: nat, h: seq<Visit>, v: Visit)
    ensures After(n, h + [v]) == Touch(After(n, h), n, v.inode, v.ok)
    ensures Traced(n, h + [v]) == Traced(n, h) + NewName(After(n, h), v)
  {
    assert (h + [v])[..|h|] == h;
  }

  lemma {:induction false} Shift<T>(h: seq<T>, vs: seq<T>)
    requires vs != []
    ensures (h + [vs[0]]) + vs[1..] == h + vs
  {}

  /** A run of visits can be cut anywhere. */
  lemma {:induction false} AfterFold(n: nat, h: seq<Visit>, vs: seq<Visit>)
    ensures After(n, h + vs) == Fold(After(n, h), n, vs)
    decreases |vs|
  {
    if vs == [] {
      assert h + vs == h;
    } else {
      AppendVisit(n, h, vs[0]);
      AfterFold(n, h + [vs[0]], vs[1..]);
      Shift(h, vs);
    }
  }

  lemma {:induction false} TracedFold(n: nat, h: seq<Visit>, vs: seq<Visit>)
    ensures Traced(n, h + vs) == Traced(n, h) + FoldTraced(After(n, h), n, vs)
    decreases |vs|
  {
    if vs == [] {
      assert h + vs == h;
    } else {
      var v, rest, m := vs[0], vs[1..], After(n, h);
      var traced := FoldTraced(Touch(m, n, v.inode, v.ok), n, rest);
      calc {
        Traced(n, h + vs);
        { Shift(h, vs); }
        Traced(n, (h + [v]) + rest);
        { TracedFold(n, h + [v], rest); }
        Traced(n, h + [v]) + FoldTraced(After(n, h + [v]), n, rest);
        { AppendVisit(n, h, v); }
        (Traced(n, h) + NewName(m, v)) + traced;
        Traced(n, h) + (NewName(m, v) + traced);
        Traced(n, h) + FoldTraced(m, n, vs);
      }
    }
  }

  /** The visits of a whole run of walks. */
  ghost function AllVisits(n: nat, ws: seq<Walked>): seq<Visit>
    requires n >= 1
  {
    if ws == [] then []
    else
      var last, before := ws[|ws| - 1], ws[..|ws| - 1];
      AllVisits(n, before) + Visits(RunWalks(n, before).0, n, last.dentry, last.writes)
  }

  lemma {:induction false} FilesConcat(a: seq<NameEvent>, b: seq<NameEvent>)
    ensures Files(a + b) == Files(a) + Files(b)
  {}

  lemma {:induction false} OneMoreWalk(n: nat, m: seq<Inode>, log: seq<NameEvent>, h: seq<Visit>, w: Walked)
    requires n >= 1 && m == After(n, h) && Files(log) == Traced(n, h)
    ensures var vs, r := Visits(m, n, w.dentry, w.writes), Walk(m, n, w.dentry, w.writes);
            r.listed == After(n, h + vs) && Files(log + r.events) == Traced(n, h + vs)
  {
    var vs := Visits(m, n, w.dentry, w.writes);
    WalkIsVisits(m, n, w.dentry, w.writes);
    AfterFold(n, h, vs);
    TracedFold(n, h, vs);
    FilesConcat(log, Walk(m, n, w.dentry, w.writes).events);
  }

  /** Any run of walks is one run of visits: the same list at the end, and a log
      that names exactly the inodes traced by those visits, in order. */
  lemma {:induction false} RunIsVisits(n: nat, ws: seq<Walked>)
    requires n >= 1
    ensures RunWalks(n, ws).0 == After(n, AllVisits(n, ws))
    ensures Files(RunWalks(n, ws).1) == Traced(n, AllVisits(n, ws))
  {
    if ws != [] {
      var before := ws[..|ws| - 1];
      RunIsVisits(n, before);
      OneMoreWalk(n, RunWalks(n, before).0, RunWalks(n, before).1, AllVisits(n, before), ws[|ws| - 1]);
    }
  }

  /** Between visits `i` and `j` the slot of `x` was seen with another time, or at
      least `n` other slots were visited. */
  ghost predicate Displaced(n: nat, vs: seq<Visit>, i: nat, j: nat, x: Inode)
    requires i < j <= |vs|
  {
    || (exists k :: i < k < j && vs[k].inode != x && Id(vs[k].inode) == Id(x))
    || |Visited(vs[i + 1..j]) - {Id(x)}| >= n
  }

  lemma {:induction false} DisplacedWider(n: nat, vs: seq<Visit>, i: nat, i': nat, j': nat, j: nat, x: Inode)
    requires i <= i' < j' <= j <= |vs| && Displaced(n, vs, i', j', x)
    ensures Displaced(n, vs, i, j, x)
  {
    VisitedWider(vs, i, i', j', j);
    SubsetCount(Visited(vs[i' + 1..j']) - {Id(x)}, Visited(vs[i + 1..j]) - {Id(x)});
  }

  lemma {:induction false} VisitedWider(vs: seq<Visit>, i: nat, i': nat, j': nat, j: nat)
    requires i <= i' < j' <= j <= |vs|
    ensures Visited(vs[i' + 1..j']) <= Visited(vs[i + 1..j])
  {
    var a, b := vs[i' + 1..j'], vs[i + 1..j];
    forall v | v in a ensures v in b {
      var k :| 0 <= k < |a| && a[k] == v;
      assert b[k + i' - i] == v;
    }
  }

  lemma {:induction false} NextVisit(vs: seq<Visit>, i: nat, j: nat) returns (k: nat)
    requires i < j < |vs| && vs[j].inode == vs[i].inode
    ensures i < k <= j && vs[k].inode == vs[i].inode
    ensures forall l :: i < l < k ==> vs[l].inode != vs[i].inode
  {
    k := i + 1;
    while vs[k].inode != vs[i].inode
      invariant i < k <= j
      invariant forall l :: i < l < k ==> vs[l].inode != vs[i].inode
      decreases j - k
    {
      k := k + 1;
    }
  }

  /** An inode once used that misses later was displaced in between, however
      often it was visited meanwhile. */
  lemma {:induction false} MissedAgain(n: nat, vs: seq<Visit>, i: nat, j: nat)
    requires n >= 1 && i < j < |vs| && vs[j].inode == vs[i].inode
    requires vs[i].inode in After(n, vs[..i]) || vs[i].ok
    requires vs[j].inode !in After(n, vs[..j])
    ensures Displaced(n, vs, i, j, vs[i].inode)
    decreases j - i
  {
    var x := vs[i].inode;
    var k := NextVisit(vs, i, j);
    if x in After(n, vs[..k]) {
      MissedAgain(n, vs, k, j);
      DisplacedWider(n, vs, i, k, j, j, x);
    } else {
      Retention(n, vs, i, k);
      DisplacedFirst(n, vs, i, k);
      DisplacedWider(n, vs, i, i, k, j, x);
    }
  }

  lemma {:induction false} DisplacedFirst(n: nat, vs: seq<Visit>, i: nat, k: nat)
    requires i < k < |vs| && forall l :: i < l < k ==> vs[l].inode != vs[i].inode
    requires || (exists l :: i < l < k && Id(vs[l].inode) == Id(vs[i].inode))
             || |Visited(vs[i + 1..k])| >= n
    ensures Displaced(n, vs, i, k, vs[i].inode)
  {
    var x := vs[i].inode;
    if forall l :: i < l < k ==> Id(vs[l].inode) != Id(x) {
      assert Id(x) !in Visited(vs[i + 1..k]);
      assert Visited(vs[i + 1..k]) - {Id(x)} == Visited(vs[i + 1..k]);
    }
  }

  /** Visit `i` is the one that left event `p`. */
  ghost predicate Left(n: nat, vs: seq<Visit>, i: nat, p: nat) {
    i < |vs| && vs[i].ok && vs[i].inode !in After(n, vs[..i]) && |Traced(n, vs[..i])| == p
  }

  lemma {:induction false} TracedGrows(n: nat, vs: seq<Visit>, i: nat)
    requires i <= |vs|
    ensures Traced(n, vs[..i]) <= Traced(n, vs)
    decreases |vs|
  {
    var k := |vs| - 1;
    if i <= k {
      TracedGrows(n, vs[..k], i);
      assert vs[..k][..i] == vs[..i];
    } else {
      assert vs[..i] == vs;
    }
  }

  lemma {:induction false} TracedInOrder(n: nat, vs: seq<Visit>, i: nat, j: nat)
    requires i <= j <= |vs|
    ensures |Traced(n, vs[..i])| <= |Traced(n, vs[..j])|
  {
    TracedGrows(n, vs[..j], i);
    assert vs[..j][..i] == vs[..i];
  }

  lemma {:induction false} WhoLeft(n: nat, vs: seq<Visit>, p: nat) returns (i: nat)
    requires p < |Traced(n, vs)|
    ensures Left(n, vs, i, p) && vs[i].inode == Traced(n, vs)[p]
    decreases |vs|
  {
    var k := |vs| - 1;
    if p < |Traced(n, vs[..k])| {
      i := WhoLeft(n, vs[..k], p);
      assert vs[..k][..i] == vs[..i];
    } else {
      i := k;
    }
  }

  /** When an inode is named again.  If two events of a log name the same inode,
      then between the visits that left them its slot was seen with another
      time, or at least `n` other slots were visited; so without such a cause
      each inode is named once per CPU. */
  lemma {:induction false} NamedAgain(n: nat, ws: seq<Walked>, p: nat, q: nat) returns (i: nat, j: nat)
    requires n >= 1 && p < q < |RunWalks(n, ws).1|
    requires File(RunWalks(n, ws).1[p]) == File(RunWalks(n, ws).1[q])
    ensures var vs := AllVisits(n, ws);
            Left(n, vs, i, p) && Left(n, vs, j, q) && i < j
            && Displaced(n, vs, i, j, File(RunWalks(n, ws).1[p]))
  {
    var vs, log := AllVisits(n, ws), RunWalks(n, ws).1;
    RunIsVisits(n, ws);
    assert Files(log)[p] == File(log[p]) && Files(log)[q] == File(log[q]);
    i := WhoLeft(n, vs, p);
    j := WhoLeft(n, vs, q);
    if j <= i {
      TracedInOrder(n, vs, j, i);
      assert false;
    }
    MissedAgain(n, vs, i, j);
  }
}
