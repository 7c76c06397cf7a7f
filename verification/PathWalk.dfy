/**
  The walk that names a file: from its directory entry up to the filesystem
  root, one name event for every ancestor the cache does not list, stopping at
  the first one it does.

  Directory entries are a datatype, so that the tree is finite and the parent
  of the root is the root.  A ring write may be refused: `writes` gives the
  outcome of each attempt in order, and attempts past its end are accepted, so
  every walk that ends is covered.
 */
module PathWalk {
  import opened Common
  import opened RecencyList
  import opened InodeTracer

  /** All entries of a tree live on the device of its root. */
  datatype Dentry =
    | Root(ino: nat, ctime: Timespec, name: string, dev: nat)
    | Child(ino: nat, ctime: Timespec, name: string, parent: Dentry)

  datatype NameEvent = NameEvent(
    dev: nat, ino: nat, ctime: Timespec, parentIno: nat, parentCtime: Timespec, name: string)

  function Device(d: Dentry): nat {
    match d
    case Root(_, _, _, dev) => dev
    case Child(_, _, _, p) => Device(p)
  }

  function InodeOf(d: Dentry): Inode {
    Inode(d.ino, Device(d), d.ctime)
  }

  /** `dget_parent` */
  function Parent(d: Dentry): Dentry {
    if d.Root? then d else d.parent
  }

  function Depth(d: Dentry): nat {
    if d.Root? then 0 else 1 + Depth(d.parent)
  }

  /** The file first, the root last. */
  function Ancestry(d: Dentry): (r: seq<Inode>)
    ensures |r| == Depth(d) + 1 && r[0] == InodeOf(d)
  {
    [InodeOf(d)] + if d.Root? then [] else Ancestry(d.parent)
  }

  /** The ancestor `i` levels up. */
  function Up(d: Dentry, i: nat): (r: Dentry)
    requires i <= Depth(d)
    ensures InodeOf(r) == Ancestry(d)[i] && Depth(r) == Depth(d) - i
    ensures Device(r) == Device(d)
  {
    if i == 0 then d else Up(d.parent, i - 1)
  }

  lemma {:induction false} UpNext(d: Dentry, i: nat)
    requires i < Depth(d)
    ensures Parent(Up(d, i)) == Up(d, i + 1)
  {
    if i > 0 { UpNext(d.parent, i - 1); }
  }

  /** Where `i` steps up from `d` lead; the root is its own parent. */
  function Reached(d: Dentry, i: nat): Dentry {
    Up(d, if i <= Depth(d) then i else Depth(d))
  }

  /** The entries a walk from `d` looks up in its first `k` turns. */
  function Entries(d: Dentry, k: nat): (r: seq<Dentry>)
    ensures |r| == k && forall i :: 0 <= i < k ==> r[i] == Reached(d, i)
  {
    seq(k, i requires 0 <= i < k => Reached(d, i))
  }

  lemma {:induction false} EntriesNext(d: Dentry, k: nat)
    ensures Reached(d, k + 1) == Parent(Reached(d, k))
    ensures Entries(d, k + 1) == Entries(d, k) + [Reached(d, k)]
  {
    if k < Depth(d) { UpNext(d, k); }
  }

  /** No two ancestors share an inode number. */
  ghost predicate ProperTree(d: Dentry) {
    UniqueIds(Ancestry(d))
  }

  function EventOf(d: Dentry): NameEvent {
    NameEvent(Device(d), d.ino, d.ctime, Parent(d).ino, Parent(d).ctime, d.name)
  }

  function File(e: NameEvent): Inode {
    Inode(e.ino, e.dev, e.ctime)
  }

  function ParentFile(e: NameEvent): Inode {
    Inode(e.parentIno, e.dev, e.parentCtime)
  }

  // ----------------------------------------------------------------- the walk

  datatype WalkResult = WalkResult(listed: seq<Inode>, events: seq<NameEvent>, lookups: nat)

  function Accepted(writes: seq<bool>): bool {
    writes == [] || writes[0]
  }

  function Later(writes: seq<bool>): seq<bool> {
    if writes == [] then [] else writes[1..]
  }

  /** The outcome of the `i`-th write attempt. */
  function Taken(writes: seq<bool>, i: nat): bool {
    i < |writes| ==> writes[i]
  }

  /** What a walk from `d` does to a recency list of capacity `n`, the name
      events it leaves in the ring, and how often it looks an inode up. */
  function Walk(m: seq<Inode>, n: nat, d: Dentry, writes: seq<bool>): (r: WalkResult)
    requires n >= 1
    decreases Depth(d), |writes|, if InodeOf(d) in m then 0 else 1
  {
    var x := InodeOf(d);
    if x in m then WalkResult(Promote(m, n, x), [], 1)
    else
      var ok := Accepted(writes);
      PromotedFirst(m, n, x);
      var r := Walk(Touch(m, n, x, ok), n, Parent(d), Later(writes));
      WalkResult(r.listed, (if ok then [EventOf(d)] else []) + r.events, 1 + r.lookups)
  }

  /** `dget_parent`, which needs a reference held on `here` and takes one on the
      parent.  References are given back in the order they were taken. */
  method GetParent(here: Dentry, taken: seq<Dentry>, ghost dropped: seq<Dentry>)
    returns (parent: Dentry, more: seq<Dentry>)
    requires taken == dropped + [here]
    ensures parent == Parent(here) && more == taken + [parent]
  {
    parent := Parent(here);
    more := taken + [parent];
  }

  /** `iotrace_trace_inode`.  `taken` and `dropped` are the directory-entry
      references the walk acquires and gives back, in order: one of each for every
      entry it looks up. */
  method TraceInode(t: Tracer, alias: Option<Dentry>, writes: seq<bool>)
    returns (events: seq<NameEvent>, lookups: nat, taken: seq<Dentry>, dropped: seq<Dentry>)
    requires t.Valid()
    modifies t`lru, t.entries, t.buckets
    ensures t.Valid()
    ensures alias.None? ==> events == [] && lookups == 0 && taken == dropped == [] && t.Model() == old(t.Model())
    ensures alias.Some? ==>
              WalkResult(t.Model(), events, lookups)
              == Walk(old(t.Model()), t.entries.Length, alias.value, writes)
    ensures alias.Some? ==> taken == dropped == Entries(alias.value, lookups)
  {
    events, lookups, taken, dropped := [], 0, [], [];
    if alias.Some? { events, lookups, taken, dropped := TraceEntry(t, alias.value, writes); }
  }

  /** The loop of `iotrace_trace_inode` from the directory entry found. */
  method TraceEntry(t: Tracer, d: Dentry, writes: seq<bool>)
    returns (events: seq<NameEvent>, lookups: nat, taken: seq<Dentry>, dropped: seq<Dentry>)
    requires t.Valid()
    modifies t`lru, t.entries, t.buckets
    ensures t.Valid()
    ensures WalkResult(t.Model(), events, lookups) == Walk(old(t.Model()), t.entries.Length, d, writes)
    ensures taken == dropped == Entries(d, lookups)
  {
    events, lookups, taken, dropped := [], 0, [d], [];
    var here, left := d, writes;
    ghost var n := t.entries.Length;
    ghost var whole := Walk(t.Model(), n, d, writes);
    while true
      invariant t.Valid() && n == t.entries.Length && here == Reached(d, lookups)
      invariant dropped == Entries(d, lookups) && taken == dropped + [here]
      invariant Remaining(whole, events, lookups, Walk(t.Model(), n, here, left))
      decreases Depth(here), |left|, if InodeOf(here) in t.Model() then 0 else 1
    {
      Turned(whole, events, lookups, t.State(), t.hash, here, left);
      EntriesNext(d, lookups);
      var hit, named := Turn(t, here, Accepted(left));
      lookups := lookups + 1;
      if hit { break; }
      var parent;
      parent, taken := GetParent(here, taken, dropped);
      events := events + named;
      dropped := dropped + [here];
      here := parent;
      left := Later(left);
    }
    dropped := dropped + [here];
  }

  /** The loop body's work on the cache: look the inode up and, on a miss, put
      its name event in the ring and map it, if the ring takes the event. */
  method Turn(t: Tracer, d: Dentry, accepted: bool) returns (hit: bool, named: seq<NameEvent>)
    requires t.Valid()
    modifies t`lru, t.entries, t.buckets
    ensures t.Valid() && (hit <==> InodeOf(d) in old(t.Model()))
    ensures t.Model() == Touch(old(t.Model()), t.entries.Length, InodeOf(d), accepted)
    ensures named == if !hit && accepted then [EventOf(d)] else []
  {
    ghost var m, n := t.Model(), t.entries.Length;
    Bounded(t.State(), t.hash);
    TouchKeeps(m, n, InodeOf(d), accepted);
    if InodeOf(d) !in m { TouchMiss(m, n, InodeOf(d), accepted); }
    named := [];
    hit := t.Lookup(InodeOf(d));
    if !hit && accepted {
      named := [EventOf(d)];
      t.Map(InodeOf(d));
    }
  }

  lemma {:induction false} Turned(whole: WalkResult, events: seq<NameEvent>, lookups: nat,
                                  c: Cache, hash: nat -> nat, d: Dentry, left: seq<bool>)
    requires Coherent(c, hash)
    requires Remaining(whole, events, lookups, Walk(Listed(c), |c.entries|, d, left))
    ensures var m, n, x, ok := Listed(c), |c.entries|, InodeOf(d), Accepted(left);
            if x in m then whole == WalkResult(Touch(m, n, x, ok), events, lookups + 1)
            else Remaining(whole, events + (if ok then [EventOf(d)] else []), lookups + 1,
                           Walk(Touch(m, n, x, ok), n, Parent(d), Later(left)))
                 && Climbs(m, n, d, left)
  {
    if InodeOf(d) !in Listed(c) { WalkClimbs(Listed(c), |c.entries|, d, left); }
  }

  /** The next turn is nearer to the end of the walk. */
  ghost predicate Climbs(m: seq<Inode>, n: nat, d: Dentry, left: seq<bool>) {
    var ok := Accepted(left);
    || Depth(Parent(d)) < Depth(d)
    || (d.Root? && !ok && |Later(left)| < |left|)
    || (d.Root? && ok && InodeOf(d) in Touch(m, n, InodeOf(d), ok))
  }

  /** Only a refused write at the root, or the lookup that finds the root just
      named, does not climb. */
  lemma {:induction false} WalkClimbs(m: seq<Inode>, n: nat, d: Dentry, left: seq<bool>)
    requires n >= 1 && InodeOf(d) !in m
    ensures Climbs(m, n, d, left)
  {
    PromotedFirst(m, n, InodeOf(d));
  }

  lemma {:induction false} TouchMiss(m: seq<Inode>, n: nat, x: Inode, ok: bool)
    requires x !in m
    ensures forall y :: y in Without(m, x) ==> Id(y) != Id(x)
    ensures Touch(m, n, x, ok) == if ok then Promote(Without(m, x), n, x) else Without(m, x)
  {
    WithoutMembers(m, x);
    WithoutAbsent(Without(m, x), x);
  }

  ghost predicate Remaining(whole: WalkResult, events: seq<NameEvent>, lookups: nat, rest: WalkResult) {
    whole == WalkResult(rest.listed, events + rest.events, lookups + rest.lookups)
  }

  /** A coherent cache stands for a list within its capacity, without repeats. */
  lemma {:induction false} Bounded(c: Cache, hash: nat -> nat)
    requires Coherent(c, hash)
    ensures |Listed(c)| <= |c.entries| && UniqueIds(Listed(c))
  {
    LiveCount(c.entries, c.lru);
    LiveUnique(c.entries, c.lru);
  }

  lemma {:induction false} LiveUnique(entries: seq<CacheEntry>, s: seq<nat>)
    requires UniqueLive(entries) && Distinct(s)
    requires forall i :: 0 <= i < |s| ==> s[i] < |entries|
    ensures UniqueIds(Live(entries, s))
  {
    if s != [] {
      LiveUnique(entries, s[1..]);
      assert s[0] !in s[1..];
      if entries[s[0]].bucket.Some? {
        NoOther(entries, s[1..], s[0]);
        UniqueCons(entries[s[0]].inode, Live(entries, s[1..]));
      }
    }
  }
}
