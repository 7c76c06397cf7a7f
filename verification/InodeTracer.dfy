/**
  The per-CPU cache of inodes whose name has been traced.

  A fixed array of entries is threaded on a recency list; a live entry also
  sits in the hash chain of its inode number.  The kernel's intrusive lists are
  sequences of entry numbers here, the hash function is an arbitrary parameter,
  and so are the number of entries and of chains.
 */
module InodeTracer {
  import opened Common
  import opened RecencyList

  /** `bucket` is the chain the entry's hash node is linked into, if any. */
  datatype CacheEntry = CacheEntry(inode: Inode, bucket: Option<nat>)

  datatype Cache = Cache(entries: seq<CacheEntry>, buckets: seq<seq<nat>>, lru: seq<nat>)

  // ------------------------------------------------------------- invariants

  ghost predicate Permutation(lru: seq<nat>, n: nat) {
    && |lru| == n
    && (forall i :: 0 <= i < n ==> lru[i] < n)
    && Distinct(lru)
  }

  function Chain(hash: nat -> nat, ino: nat, buckets: nat): (b: nat)
    requires buckets > 0
    ensures b < buckets
  {
    hash(ino) % buckets
  }

  /** Chains hold exactly the entries that say so, each once, each in the chain
      of its own inode number. */
  ghost predicate Hashed(entries: seq<CacheEntry>, buckets: seq<seq<nat>>, hash: nat -> nat) {
    && |buckets| > 0
    && (forall b :: 0 <= b < |buckets| ==> Distinct(buckets[b]))
    && (forall b, e {:trigger e in buckets[b]} :: 0 <= b < |buckets| && e in buckets[b] ==>
          e < |entries| && entries[e].bucket == Some(b))
    && (forall e {:trigger entries[e]} :: 0 <= e < |entries| && entries[e].bucket.Some? ==>
          && entries[e].bucket.value < |buckets|
          && entries[e].bucket.value == Chain(hash, entries[e].inode.ino, |buckets|)
          && e in buckets[entries[e].bucket.value])
  }

  ghost predicate UniqueLive(entries: seq<CacheEntry>) {
    forall e, f :: 0 <= e < f < |entries| && entries[e].bucket.Some? && entries[f].bucket.Some? ==>
      Id(entries[e].inode) != Id(entries[f].inode)
  }

  /** Free entries form a suffix of the recency list. */
  ghost predicate FreeLast(entries: seq<CacheEntry>, lru: seq<nat>)
    requires forall i :: 0 <= i < |lru| ==> lru[i] < |entries|
  {
    forall i, j :: 0 <= i < j < |lru| && entries[lru[j]].bucket.Some? ==> entries[lru[i]].bucket.Some?
  }

  ghost predicate Coherent(c: Cache, hash: nat -> nat) {
    && |c.entries| >= 1
    && Permutation(c.lru, |c.entries|)
    && Hashed(c.entries, c.buckets, hash)
    && UniqueLive(c.entries)
    && FreeLast(c.entries, c.lru)
  }

  /** The identities of the live entries among `s`, in order. */
  ghost function Live(entries: seq<CacheEntry>, s: seq<nat>): seq<Inode>
    requires forall i :: 0 <= i < |s| ==> s[i] < |entries|
  {
    if s == [] then []
    else (if entries[s[0]].bucket.Some? then [entries[s[0]].inode] else []) + Live(entries, s[1..])
  }

  /** The recency list the cache stands for. */
  ghost function Listed(c: Cache): seq<Inode>
    requires forall i :: 0 <= i < |c.lru| ==> c.lru[i] < |c.entries|
  {
    Live(c.entries, c.lru)
  }

  // ------------------------------------------------------------ list facts

  /** `s` with entry `e` unlinked. */
  function Unlink(s: seq<nat>, e: nat): (r: seq<nat>) {
    if s == [] then []
    else if s[0] == e then Unlink(s[1..], e)
    else [s[0]] + Unlink(s[1..], e)
  }

  lemma {:induction false} UnlinkMembers(s: seq<nat>, e: nat)
    ensures forall x :: x in Unlink(s, e) <==> x in s && x != e
  {
    if s != [] {
      UnlinkMembers(s[1..], e);
      assert s == [s[0]] + s[1..];
    }
  }

  lemma {:induction false} UnlinkDistinct(s: seq<nat>, e: nat)
    requires Distinct(s)
    ensures Distinct(Unlink(s, e))
  {
    if s != [] {
      UnlinkDistinct(s[1..], e);
      assert s[0] !in s[1..];
      UnlinkMembers(s[1..], e);
    }
  }

  lemma {:induction false} UnlinkConcat(a: seq<nat>, b: seq<nat>, e: nat)
    ensures Unlink(a + b, e) == Unlink(a, e) + Unlink(b, e)
  {
    if a == [] {
      assert a + b == b;
    } else {
      assert (a + b)[0] == a[0] && (a + b)[1..] == a[1..] + b;
      UnlinkConcat(a[1..], b, e);
    }
  }

  /** Unlinking an entry closes the gap around it. */
  lemma {:induction false} UnlinkSplit(s: seq<nat>, e: nat) returns (a: seq<nat>, b: seq<nat>)
    requires Distinct(s) && e in s
    ensures s == a + [e] + b && Unlink(s, e) == a + b
    ensures e !in a && e !in b
  {
    var k :| 0 <= k < |s| && s[k] == e;
    a, b := s[..k], s[k + 1..];
    assert s == a + [e] + b;
    UnlinkMiddle(a, e, b);
  }

  lemma {:induction false} UnlinkMiddle(a: seq<nat>, e: nat, b: seq<nat>)
    requires e !in a && e !in b
    ensures Unlink(a + [e] + b, e) == a + b
  {
    UnlinkConcat(a + [e], b, e);
    UnlinkConcat(a, [e], e);
    UnlinkAbsent(a, e);
    UnlinkAbsent(b, e);
    assert Unlink([e], e) == [];
  }

  lemma {:induction false} UnlinkAbsent(s: seq<nat>, e: nat)
    requires e !in s
    ensures Unlink(s, e) == s
  {
    if s != [] { UnlinkAbsent(s[1..], e); }
  }

  lemma {:induction false} LiveConcat(entries: seq<CacheEntry>, a: seq<nat>, b: seq<nat>)
    requires forall i :: 0 <= i < |a| ==> a[i] < |entries|
    requires forall i :: 0 <= i < |b| ==> b[i] < |entries|
    ensures Live(entries, a + b) == Live(entries, a) + Live(entries, b)
  {
    if a == [] {
      assert a + b == b;
    } else {
      assert (a + b)[0] == a[0] && (a + b)[1..] == a[1..] + b;
      LiveConcat(entries, a[1..], b);
    }
  }

  /** Only the entries named matter. */
  lemma {:induction false} LiveFrame(before: seq<CacheEntry>, after: seq<CacheEntry>, s: seq<nat>)
    requires |before| == |after| && forall i :: 0 <= i < |s| ==> s[i] < |before|
    requires forall i :: 0 <= i < |s| ==> before[s[i]] == after[s[i]]
    ensures Live(before, s) == Live(after, s)
  {
    if s != [] { LiveFrame(before, after, s[1..]); }
  }

  lemma {:induction false} LiveMember(entries: seq<CacheEntry>, s: seq<nat>, x: Inode)
    requires forall i :: 0 <= i < |s| ==> s[i] < |entries|
    ensures x in Live(entries, s) <==>
            exists e :: e in s && entries[e].bucket.Some? && entries[e].inode == x
  {
    if s != [] {
      LiveMember(entries, s[1..], x);
      assert s == [s[0]] + s[1..];
      if entries[s[0]].bucket.Some? && entries[s[0]].inode == x { assert s[0] in s; }
    }
  }

  lemma {:induction false} LiveCount(entries: seq<CacheEntry>, s: seq<nat>)
    requires forall i :: 0 <= i < |s| ==> s[i] < |entries|
    ensures |Live(entries, s)| <= |s|
    ensures |Live(entries, s)| == |s| <==> forall i :: 0 <= i < |s| ==> entries[s[i]].bucket.Some?
  {
    if s != [] {
      LiveCount(entries, s[1..]);
      if forall i :: 0 <= i < |s[1..]| ==> entries[s[1..][i]].bucket.Some? {
        assert forall i :: 0 < i < |s| ==> s[i] == s[1..][i - 1];
      } else {
        var i :| 0 <= i < |s[1..]| && !entries[s[1..][i]].bucket.Some?;
        assert s[i + 1] == s[1..][i];
      }
    }
  }

  /** In a permutation every entry number occurs. */
  lemma {:induction false} PermutationCovers(lru: seq<nat>, n: nat, e: nat)
    requires Permutation(lru, n) && e < n
    ensures e in lru
  {
    if e !in lru {
      DistinctCount(lru);
      var others := Below(n) - {e};
      forall x | x in lru ensures x in others {
        BelowMembers(n);
      }
      SubsetCount((set x | x in lru), others);
      BelowMembers(n);
      assert false;
    }
  }

  ghost function Below(n: nat): set<nat> {
    if n == 0 then {} else {n - 1} + Below(n - 1)
  }

  lemma {:induction false} BelowMembers(n: nat)
    ensures forall x :: x in Below(n) <==> 0 <= x < n
    ensures |Below(n)| == n
  {
    if n > 0 {
      BelowMembers(n - 1);
      assert n - 1 !in Below(n - 1);
    }
  }

  /** The cache lists an identity exactly when a live entry holds it. */
  lemma {:induction false} ListedMember(c: Cache, hash: nat -> nat, x: Inode)
    requires Coherent(c, hash)
    ensures x in Listed(c) <==>
            exists e :: 0 <= e < |c.entries| && c.entries[e].bucket.Some? && c.entries[e].inode == x
  {
    LiveMember(c.entries, c.lru, x);
    if e :| 0 <= e < |c.entries| && c.entries[e].bucket.Some? && c.entries[e].inode == x {
      PermutationCovers(c.lru, |c.entries|, e);
    }
  }

  // --------------------------------------------------- effects on the cache

  function SetHot(c: Cache, e: nat): (r: Cache) {
    c.(lru := [e] + Unlink(c.lru, e))
  }

  /** `hash_del`: does nothing for an entry in no chain. */
  function HashDel(c: Cache, e: nat): (r: Cache)
    requires e < |c.entries|
    requires c.entries[e].bucket.Some? ==> c.entries[e].bucket.value < |c.buckets|
  {
    match c.entries[e].bucket
    case None => c
    case Some(b) =>
      c.(entries := c.entries[e := c.entries[e].(bucket := None)],
         buckets := c.buckets[b := Unlink(c.buckets[b], e)])
  }

  function RemoveEntry(c: Cache, e: nat): (r: Cache)
    requires e < |c.entries|
    requires c.entries[e].bucket.Some? ==> c.entries[e].bucket.value < |c.buckets|
  {
    HashDel(c, e).(lru := Unlink(c.lru, e) + [e])
  }

  /** `_map`: reuse the last entry of the recency list for `x`. */
  function MapInode(c: Cache, x: Inode, b: nat): (r: Cache)
    requires |c.lru| > 0 && c.lru[|c.lru| - 1] < |c.entries| && b < |c.buckets|
    requires var e := c.entries[c.lru[|c.lru| - 1]]; e.bucket.Some? ==> e.bucket.value < |c.buckets|
  {
    var e := c.lru[|c.lru| - 1];
    var d := HashDel(c, e);
    Cache(d.entries[e := CacheEntry(x, Some(b))],
          d.buckets[b := [e] + d.buckets[b]],
          [e] + c.lru[..|c.lru| - 1])
  }

  lemma {:induction false} HashDelKeeps(c: Cache, hash: nat -> nat, e: nat)
    requires Hashed(c.entries, c.buckets, hash) && UniqueLive(c.entries) && e < |c.entries|
    ensures var d := HashDel(c, e);
            && Hashed(d.entries, d.buckets, hash) && UniqueLive(d.entries)
            && d.entries[e].bucket.None?
            && |d.entries| == |c.entries| && |d.buckets| == |c.buckets|
            && forall f :: 0 <= f < |c.entries| && f != e ==> d.entries[f] == c.entries[f]
  {
    if c.entries[e].bucket.Some? {
      var b := c.entries[e].bucket.value;
      var d := HashDel(c, e);
      UnlinkDistinct(c.buckets[b], e);
      UnlinkMembers(c.buckets[b], e);
      forall b2, f | 0 <= b2 < |d.buckets| && f in d.buckets[b2]
        ensures f < |d.entries| && d.entries[f].bucket == Some(b2)
      {
        assert f in c.buckets[b2];
      }
    }
  }

  lemma {:induction false} HashAddKeeps(entries: seq<CacheEntry>, buckets: seq<seq<nat>>, hash: nat -> nat,
                                        e: nat, x: Inode)
    requires Hashed(entries, buckets, hash) && UniqueLive(entries)
    requires e < |entries| && entries[e].bucket.None?
    requires forall f :: 0 <= f < |entries| && entries[f].bucket.Some? ==> Id(entries[f].inode) != Id(x)
    ensures var b := Chain(hash, x.ino, |buckets|);
            var es, bs := entries[e := CacheEntry(x, Some(b))], buckets[b := [e] + buckets[b]];
            Hashed(es, bs, hash) && UniqueLive(es)
  {
    var b := Chain(hash, x.ino, |buckets|);
    assert e !in buckets[b];
    var bs := buckets[b := [e] + buckets[b]];
    var es := entries[e := CacheEntry(x, Some(b))];
    forall b2, f | 0 <= b2 < |bs| && f in bs[b2]
      ensures f < |es| && es[f].bucket == Some(b2)
    {
      if f != e { assert f in buckets[b2]; }
    }
  }

  // ------------------------------------------------ each effect, simulated

  /** Moving a live entry to the front is a promotion in the recency list. */
  lemma {:induction false} SetHotSimulates(c: Cache, hash: nat -> nat, e: nat)
    requires Coherent(c, hash) && e < |c.entries| && c.entries[e].bucket.Some?
    ensures Coherent(SetHot(c, e), hash)
    ensures Listed(SetHot(c, e)) == [c.entries[e].inode] + Without(Listed(c), c.entries[e].inode)
  {
    PermutationCovers(c.lru, |c.entries|, e);
    var a, b := UnlinkSplit(c.lru, e);
    MoveFrontKeeps(c, hash, e, a, b);
    SplitBounds(c.lru, |c.entries|, a, e, b);
    SplitWithout(c.entries, a, e, b);
    LiveConcat(c.entries, [e], a + b);
    LiveConcat(c.entries, a, b);
  }

  lemma {:induction false} MoveFrontKeeps(c: Cache, hash: nat -> nat, e: nat, a: seq<nat>, b: seq<nat>)
    requires Coherent(c, hash) && e < |c.entries| && c.entries[e].bucket.Some?
    requires c.lru == a + [e] + b && Unlink(c.lru, e) == a + b
    ensures Coherent(SetHot(c, e), hash)
  {
    var r := [e] + (a + b);
    forall i | 0 <= i < |r|
      ensures r[i] == c.lru[if i == 0 then |a| else if i <= |a| then i - 1 else i]
    {}
  }

  lemma {:induction false} SplitBounds(lru: seq<nat>, n: nat, a: seq<nat>, e: nat, b: seq<nat>)
    requires Permutation(lru, n) && lru == a + [e] + b
    ensures forall i :: 0 <= i < |a| ==> a[i] < n
    ensures forall i :: 0 <= i < |b| ==> b[i] < n
  {
    assert forall i :: 0 <= i < |a| ==> a[i] == lru[i];
    forall i | 0 <= i < |b| ensures b[i] < n {
      assert b[i] == lru[|a| + 1 + i];
    }
  }

  /** Around a live entry `e`, the other live entries are the listed ones
      without its slot. */
  lemma {:induction false} SplitWithout(entries: seq<CacheEntry>, a: seq<nat>, e: nat, b: seq<nat>)
    requires UniqueLive(entries) && e < |entries| && entries[e].bucket.Some?
    requires forall i :: 0 <= i < |a| ==> a[i] < |entries|
    requires forall i :: 0 <= i < |b| ==> b[i] < |entries|
    requires e !in a && e !in b
    ensures Without(Live(entries, a + [e] + b), entries[e].inode) == Live(entries, a) + Live(entries, b)
  {
    var x, l, r := entries[e].inode, Live(entries, a), Live(entries, b);
    assert Live(entries, a + [e] + b) == l + [x] + r by {
      LiveConcat(entries, a + [e], b);
      LiveConcat(entries, a, [e]);
      assert Live(entries, [e]) == [x];
    }
    NoOther(entries, a, e);
    NoOther(entries, b, e);
    WithoutMiddle(l, x, r);
  }

  lemma {:induction false} NoOther(entries: seq<CacheEntry>, s: seq<nat>, e: nat)
    requires UniqueLive(entries) && e < |entries| && entries[e].bucket.Some? && e !in s
    requires forall i :: 0 <= i < |s| ==> s[i] < |entries|
    ensures forall y :: y in Live(entries, s) ==> Id(y) != Id(entries[e].inode)
  {
    forall y | y in Live(entries, s) ensures Id(y) != Id(entries[e].inode) {
      LiveMember(entries, s, y);
      var f :| f in s && entries[f].bucket.Some? && entries[f].inode == y;
    }
  }

  /** Dropping a stale entry only deletes its slot from the recency list. */
  lemma {:induction false} RemoveEntrySimulates(c: Cache, hash: nat -> nat, e: nat)
    requires Coherent(c, hash) && e < |c.entries| && c.entries[e].bucket.Some?
    ensures Coherent(RemoveEntry(c, e), hash)
    ensures Listed(RemoveEntry(c, e)) == Without(Listed(c), c.entries[e].inode)
  {
    PermutationCovers(c.lru, |c.entries|, e);
    var a, b := UnlinkSplit(c.lru, e);
    MoveBackKeeps(c, hash, e, a, b);
    SplitBounds(c.lru, |c.entries|, a, e, b);
    SplitWithout(c.entries, a, e, b);
    HashDelKeeps(c, hash, e);
    RemovedLive(c.entries, RemoveEntry(c, e).entries, a, e, b);
  }

  lemma {:induction false} RemovedLive(entries: seq<CacheEntry>, after: seq<CacheEntry>,
                                       a: seq<nat>, e: nat, b: seq<nat>)
    requires |after| == |entries| && e < |entries| && after[e].bucket.None? && e !in a && e !in b
    requires forall i :: 0 <= i < |a| ==> a[i] < |entries|
    requires forall i :: 0 <= i < |b| ==> b[i] < |entries|
    requires forall f :: 0 <= f < |entries| && f != e ==> after[f] == entries[f]
    ensures Live(after, a + b + [e]) == Live(entries, a) + Live(entries, b)
  {
    LiveFrame(entries, after, a);
    LiveFrame(entries, after, b);
    LiveConcat(after, a + b, [e]);
    LiveConcat(after, a, b);
    assert Live(after, [e]) == [];
  }

  lemma {:induction false} MoveBackKeeps(c: Cache, hash: nat -> nat, e: nat, a: seq<nat>, b: seq<nat>)
    requires Coherent(c, hash) && e < |c.entries| && c.entries[e].bucket.Some?
    requires c.lru == a + [e] + b && Unlink(c.lru, e) == a + b
    ensures Coherent(RemoveEntry(c, e), hash)
  {
    HashDelKeeps(c, hash, e);
    BackPermutation(c.lru, |c.entries|, e, a, b);
    BackFreeLast(c.entries, RemoveEntry(c, e).entries, c.lru, e, a, b);
  }

  lemma {:induction false} BackPermutation(lru: seq<nat>, n: nat, e: nat, a: seq<nat>, b: seq<nat>)
    requires Permutation(lru, n) && lru == a + [e] + b
    ensures Permutation(a + b + [e], n)
  {
    var r := a + b + [e];
    forall i | 0 <= i < |r|
      ensures r[i] == lru[if i < |a| then i else if i < |r| - 1 then i + 1 else |a|]
    {}
  }

  lemma {:induction false} BackFreeLast(entries: seq<CacheEntry>, after: seq<CacheEntry>, lru: seq<nat>,
                                        e: nat, a: seq<nat>, b: seq<nat>)
    requires Permutation(lru, |entries|) && lru == a + [e] + b
    requires |after| == |entries| && e < |entries|
    requires FreeLast(entries, lru) && after[e].bucket.None?
    requires forall f :: 0 <= f < |entries| && f != e ==> after[f] == entries[f]
    ensures Permutation(a + b + [e], |entries|) && FreeLast(after, a + b + [e])
  {
    BackPermutation(lru, |entries|, e, a, b);
    var r := a + b + [e];
    forall i, j | 0 <= i < j < |r| && after[r[j]].bucket.Some? ensures after[r[i]].bucket.Some? {
      var i', j' := if i < |a| then i else i + 1, if j < |a| then j else j + 1;
      assert r[|r| - 1] == e;
      assert r[i] != e && r[j] != e;
      assert r[i] == lru[i'] && r[j] == lru[j'];
    }
  }

  /** Reusing the last entry for a slot that is not listed is a promotion: it
      evicts the oldest identity exactly when no entry is free. */
  lemma {:induction false} MapSimulates(c: Cache, hash: nat -> nat, x: Inode)
    requires Coherent(c, hash)
    requires forall y :: y in Listed(c) ==> Id(y) != Id(x)
    ensures var r := MapInode(c, x, Chain(hash, x.ino, |c.buckets|));
            Coherent(r, hash) && Listed(r) == Promote(Listed(c), |c.entries|, x)
  {
    var n := |c.entries|;
    var e, s := c.lru[n - 1], c.lru[..n - 1];
    MapKeeps(c, hash, x);
    var r := MapInode(c, x, Chain(hash, x.ino, |c.buckets|));
    HashDelKeeps(c, hash, e);
    assert forall i :: 0 <= i < |s| ==> s[i] == c.lru[i] && s[i] != e;
    LiveFrame(c.entries, r.entries, s);
    LiveConcat(r.entries, [e], s);
    assert Live(r.entries, [e]) == [x];
    WithoutAbsent(Listed(c), x);
    LastGoes(c, hash, x);
  }

  /** Cutting `[x]` plus the listed identities to capacity leaves out exactly
      the last entry of the recency list. */
  lemma {:induction false} LastGoes(c: Cache, hash: nat -> nat, x: Inode)
    requires Coherent(c, hash)
    ensures Take([x] + Listed(c), |c.lru|) == [x] + Live(c.entries, c.lru[..|c.lru| - 1])
  {
    var n := |c.lru|;
    var e, s := c.lru[n - 1], c.lru[..n - 1];
    var l := Live(c.entries, s);
    LiveCount(c.entries, s);
    LiveLast(c.entries, c.lru);
    if c.entries[e].bucket.Some? {
      assert forall i :: 0 <= i < |s| ==> c.entries[c.lru[i]].bucket.Some?;
      assert ([x] + (l + [c.entries[e].inode]))[..n] == [x] + l;
    }
  }

  lemma {:induction false} LiveOne(entries: seq<CacheEntry>, e: nat)
    requires e < |entries|
    ensures Live(entries, [e]) == if entries[e].bucket.Some? then [entries[e].inode] else []
  {}

  lemma {:induction false} LiveLast(entries: seq<CacheEntry>, s: seq<nat>)
    requires s != [] && forall i :: 0 <= i < |s| ==> s[i] < |entries|
    ensures var k := |s| - 1;
            Live(entries, s) == Live(entries, s[..k]) +
              (if entries[s[k]].bucket.Some? then [entries[s[k]].inode] else [])
  {
    var k := |s| - 1;
    assert s == s[..k] + [s[k]];
    LiveConcat(entries, s[..k], [s[k]]);
    LiveOne(entries, s[k]);
  }

  /** No identity is evicted while an entry is free. */
  lemma {:induction false} EvictsOnlyWhenFull(c: Cache, hash: nat -> nat)
    requires Coherent(c, hash)
    ensures c.entries[c.lru[|c.lru| - 1]].bucket.Some? <==> |Listed(c)| == |c.entries|
    ensures |Listed(c)| == |c.entries| <==> forall e :: 0 <= e < |c.entries| ==> c.entries[e].bucket.Some?
  {
    LiveCount(c.entries, c.lru);
    var last := |c.lru| - 1;
    assert c.entries[c.lru[last]].bucket.Some? ==>
        forall i :: 0 <= i < |c.lru| ==> c.entries[c.lru[i]].bucket.Some?;
    if |Listed(c)| == |c.entries| {
      forall e | 0 <= e < |c.entries| ensures c.entries[e].bucket.Some? {
        PermutationCovers(c.lru, |c.entries|, e);
        var i :| 0 <= i < |c.lru| && c.lru[i] == e;
      }
    }
  }

  lemma {:induction false} MapKeeps(c: Cache, hash: nat -> nat, x: Inode)
    requires Coherent(c, hash)
    requires forall y :: y in Listed(c) ==> Id(y) != Id(x)
    ensures Coherent(MapInode(c, x, Chain(hash, x.ino, |c.buckets|)), hash)
  {
    var n := |c.entries|;
    var e := c.lru[n - 1];
    HashDelKeeps(c, hash, e);
    var d := HashDel(c, e);
    forall f | 0 <= f < n && d.entries[f].bucket.Some? ensures Id(d.entries[f].inode) != Id(x) {
      ListedMember(c, hash, c.entries[f].inode);
    }
    HashAddKeeps(d.entries, d.buckets, hash, e, x);
    var r := [e] + c.lru[..n - 1];
    forall i | 0 <= i < n ensures r[i] == c.lru[if i == 0 then n - 1 else i - 1] {}
  }

  // ------------------------------------------------------------- the tracer

  class Tracer {
    const entries: array<CacheEntry>
    const buckets: array<seq<nat>>
    const hash: nat -> nat
    var lru: seq<nat>

    ghost function State(): Cache
      reads this, entries, buckets
    {
      Cache(entries[..], buckets[..], lru)
    }

    ghost predicate Valid()
      reads this, entries, buckets
    {
      Coherent(State(), hash)
    }

    /** Most-recent-first identities of the traced inodes. */
    ghost function Model(): seq<Inode>
      requires Valid()
      reads this, entries, buckets
    {
      Listed(State())
    }

    /** `iotrace_create_inode_tracer`: every entry free, each linked in
        front of the one before. */
    constructor (size: nat, chains: nat, hashFn: nat -> nat)
      requires size >= 1 && chains >= 1
      ensures Valid() && Model() == []
      ensures entries.Length == size && buckets.Length == chains && hash == hashFn
      ensures fresh(entries) && fresh(buckets)
    {
      var blank := CacheEntry(Inode(0, 0, Timespec(0, 0)), None);
      entries := new CacheEntry[size](i => blank);
      buckets := new seq<nat>[chains](i => []);
      hash := hashFn;
      lru := [];
      new;
      var i := 0;
      while i < size
        invariant i <= size && |lru| == i
        invariant forall k :: 0 <= k < i ==> lru[k] == i - 1 - k
        invariant forall k :: 0 <= k < size ==> entries[k] == blank
        invariant forall b :: 0 <= b < chains ==> buckets[b] == []
      {
        lru := [i] + lru;
        i := i + 1;
      }
      NoneLive(entries[..], lru);
    }

    /** `_set_hot` */
    method Heat(e: nat)
      requires Valid() && e < entries.Length && entries[e].bucket.Some?
      modifies this`lru
      ensures State() == SetHot(old(State()), e)
      ensures Valid() && Model() == [entries[e].inode] + Without(old(Model()), entries[e].inode)
    {
      SetHotSimulates(State(), hash, e);
      lru := [e] + Unlink(lru, e);
    }

    /** `hash_del` */
    method Unhash(e: nat)
      requires e < entries.Length
      requires entries[e].bucket.Some? ==> entries[e].bucket.value < buckets.Length
      modifies entries, buckets
      ensures State() == HashDel(old(State()), e)
    {
      if entries[e].bucket.Some? {
        var b := entries[e].bucket.value;
        buckets[b] := Unlink(buckets[b], e);
        entries[e] := entries[e].(bucket := None);
      }
      assert entries[..] == HashDel(old(State()), e).entries;
      assert buckets[..] == HashDel(old(State()), e).buckets;
    }

    /** `_remove_entry` */
    method Drop(e: nat)
      requires Valid() && e < entries.Length && entries[e].bucket.Some?
      modifies this`lru, entries, buckets
      ensures State() == RemoveEntry(old(State()), e)
      ensures Valid() && Model() == Without(old(Model()), old(entries[e].inode))
    {
      RemoveEntrySimulates(State(), hash, e);
      Unhash(e);
      lru := Unlink(lru, e) + [e];
    }

    /** `_map` with `_get_entry`: takes over the coldest entry for `x`.  The
        walk calls it right after a lookup of `x` that missed. */
    method Map(x: Inode)
      requires Valid()
      requires forall y :: y in Model() ==> Id(y) != Id(x)
      modifies this`lru, entries, buckets
      ensures Valid() && Model() == Promote(old(Model()), entries.Length, x)
    {
      MapSimulates(State(), hash, x);
      var e := lru[|lru| - 1];
      lru := lru[..|lru| - 1];
      Unhash(e);
      var b := Chain(hash, x.ino, buckets.Length);
      entries[e] := CacheEntry(x, Some(b));
      lru := [e] + lru;
      buckets[b] := [e] + buckets[b];
      ghost var r := MapInode(old(State()), x, b);
      assert entries[..] == r.entries;
      assert buckets[..] == r.buckets;
    }

    /** `_lookup`: hits exactly when the identity is listed; a hit becomes the
        most recent, a miss leaves no entry for the slot behind. */
    method Lookup(x: Inode) returns (hit: bool)
      requires Valid()
      modifies this`lru, entries, buckets
      ensures Valid()
      ensures hit <==> x in old(Model())
      ensures Model() == if hit then [x] + Without(old(Model()), x) else Without(old(Model()), x)
    {
      var b := Chain(hash, x.ino, buckets.Length);
      var chain := buckets[b];
      ghost var start := State();
      ChainBounds(start, hash, b);
      ghost var victim := -1;  // position of the stale entry dropped on the way
      var i := 0;
      while i < |chain|
        invariant i <= |chain| && Valid() && -1 <= victim < i
        invariant forall k :: 0 <= k < i && k != victim ==> Id(start.entries[chain[k]].inode) != Id(x)
        invariant victim == -1 ==> State() == start
        invariant victim >= 0 ==> && Id(start.entries[chain[victim]].inode) == Id(x)
                                  && start.entries[chain[victim]].inode != x
                                  && State() == RemoveEntry(start, chain[victim])
                                  && Model() == Without(Listed(start), x)
      {
        var e := chain[i];
        if victim >= 0 {
          OnlyOne(start, hash, b, victim, i);
        }
        if entries[e].inode.ino == x.ino && entries[e].inode.dev == x.dev {
          if entries[e].inode.ctime == x.ctime {
            ListedMember(start, hash, x);
            Heat(e);
            return true;
          }
          SameSlot(Listed(start), entries[e].inode, x);
          Drop(e);
          victim := i;
        }
        i := i + 1;
      }
      hit := false;
      Missed(start, hash, b, x, victim);
    }
  }

  lemma {:induction false} NoneLive(entries: seq<CacheEntry>, s: seq<nat>)
    requires forall i :: 0 <= i < |s| ==> s[i] < |entries| && entries[s[i]].bucket.None?
    ensures Live(entries, s) == []
  {
    if s != [] { NoneLive(entries, s[1..]); }
  }

  lemma {:induction false} SameSlot(m: seq<Inode>, x: Inode, y: Inode)
    requires Id(x) == Id(y)
    ensures Without(m, x) == Without(m, y)
  {
    if m != [] { SameSlot(m[1..], x, y); }
  }

  /** Every entry of a chain is a live entry that says so. */
  lemma {:induction false} ChainBounds(c: Cache, hash: nat -> nat, b: nat)
    requires Coherent(c, hash) && b < |c.buckets|
    ensures forall k :: 0 <= k < |c.buckets[b]| ==>
              c.buckets[b][k] < |c.entries| && c.entries[c.buckets[b][k]].bucket == Some(b)
  {
    forall k | 0 <= k < |c.buckets[b]|
      ensures c.buckets[b][k] < |c.entries| && c.entries[c.buckets[b][k]].bucket == Some(b)
    {
      assert c.buckets[b][k] in c.buckets[b];
    }
  }

  /** After a stale entry was dropped, no later entry of the chain matches, and
      the later entries are untouched. */
  lemma {:induction false} OnlyOne(c: Cache, hash: nat -> nat, b: nat, k: nat, i: nat)
    requires Coherent(c, hash) && b < |c.buckets| && k < i < |c.buckets[b]|
    ensures c.buckets[b][k] < |c.entries| && c.buckets[b][i] < |c.entries|
    ensures Id(c.entries[c.buckets[b][i]].inode) != Id(c.entries[c.buckets[b][k]].inode)
    ensures c.entries[c.buckets[b][k]].bucket == Some(b)
    ensures RemoveEntry(c, c.buckets[b][k]).entries[c.buckets[b][i]] == c.entries[c.buckets[b][i]]
  {
    ChainBounds(c, hash, b);
    assert c.buckets[b][k] != c.buckets[b][i];
  }

  /** A slot listed anywhere is found in the chain of its inode number: when the
      scan matched nothing but the stale entry at `victim`, `x` was not listed,
      and when it matched nothing at all the slot was not listed either. */
  lemma {:induction false} Missed(c: Cache, hash: nat -> nat, b: nat, x: Inode, victim: int)
    requires Coherent(c, hash) && b == Chain(hash, x.ino, |c.buckets|)
    requires -1 <= victim < |c.buckets[b]|
    requires forall k :: 0 <= k < |c.buckets[b]| ==> c.buckets[b][k] < |c.entries|
    requires forall k :: 0 <= k < |c.buckets[b]| && k != victim ==>
               Id(c.entries[c.buckets[b][k]].inode) != Id(x)
    requires victim >= 0 ==> c.entries[c.buckets[b][victim]].inode != x
    ensures x !in Listed(c)
    ensures victim == -1 ==> Without(Listed(c), x) == Listed(c)
  {
    forall y | y in Listed(c) && Id(y) == Id(x) ensures victim >= 0 && y != x {
      ListedMember(c, hash, y);
      var e :| 0 <= e < |c.entries| && c.entries[e].bucket.Some? && c.entries[e].inode == y;
      assert e in c.buckets[b];
    }
    if victim == -1 { WithoutAbsent(Listed(c), x); }
  }
}
