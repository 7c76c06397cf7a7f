/**
  The reference the inode cache is measured against: a most-recent-first list
  of at most `n` inode identities, with no hash table and no free entries.

  An identity is (inode number, device, change time).  Two identities with the
  same number and device but different times are the same inode slot reused by
  the filesystem, and only the newer one may stay listed.
 */
module RecencyList {
  import opened Common

  datatype Timespec = Timespec(sec: int, nsec: int)

  datatype Inode = Inode(ino: nat, dev: nat, ctime: Timespec)

  /** What the hash chain compares before it looks at the time. */
  function Id(x: Inode): (nat, nat) {
    (x.ino, x.dev)
  }

  function Ids(m: seq<Inode>): (r: seq<(nat, nat)>)
    ensures |r| == |m|
    ensures forall i :: 0 <= i < |m| ==> r[i] == Id(m[i])
  {
    seq(|m|, i requires 0 <= i < |m| => Id(m[i]))
  }

  ghost predicate UniqueIds(m: seq<Inode>) {
    Distinct(Ids(m))
  }

  /** `m` without any entry for the inode slot of `x`. */
  function Without(m: seq<Inode>, x: Inode): (r: seq<Inode>)
    ensures |r| <= |m|
  {
    if m == [] then []
    else if Id(m[0]) == Id(x) then Without(m[1..], x)
    else [m[0]] + Without(m[1..], x)
  }

  function Take<T>(s: seq<T>, n: nat): (r: seq<T>)
    ensures |r| <= n && r <= s
    ensures |s| <= n ==> r == s
  {
    if |s| <= n then s else s[..n]
  }

  /** `x` becomes the most recent; the oldest goes when the list is full. */
  function Promote(m: seq<Inode>, n: nat, x: Inode): (r: seq<Inode>)
    ensures |r| <= n
  {
    Take([x] + Without(m, x), n)
  }

  /** One visit: a hit or an accepted name write promotes `x`, a refused write
      only drops a stale entry of the same slot. */
  function Touch(m: seq<Inode>, n: nat, x: Inode, ok: bool): (r: seq<Inode>) {
    if x in m || ok then Promote(m, n, x) else Without(m, x)
  }

  datatype Visit = Visit(inode: Inode, ok: bool)

  /** The list after a whole run of visits from a fresh tracer. */
  function After(n: nat, vs: seq<Visit>): (r: seq<Inode>) {
    if vs == [] then []
    else Touch(After(n, vs[..|vs| - 1]), n, vs[|vs| - 1].inode, vs[|vs| - 1].ok)
  }

  // ---------------------------------------------------------------- Without

  lemma {:induction false} WithoutMembers(m: seq<Inode>, x: Inode)
    ensures forall y :: y in Without(m, x) <==> y in m && Id(y) != Id(x)
  {
    if m != [] {
      WithoutMembers(m[1..], x);
      assert m == [m[0]] + m[1..];
    }
  }

  lemma {:induction false} WithoutConcat(a: seq<Inode>, b: seq<Inode>, x: Inode)
    ensures Without(a + b, x) == Without(a, x) + Without(b, x)
  {
    if a == [] {
      assert a + b == b;
    } else {
      assert (a + b)[0] == a[0] && (a + b)[1..] == a[1..] + b;
      WithoutConcat(a[1..], b, x);
    }
  }

  lemma {:induction false} WithoutAbsent(m: seq<Inode>, x: Inode)
    requires forall y :: y in m ==> Id(y) != Id(x)
    ensures Without(m, x) == m
  {
    if m != [] {
      WithoutAbsent(m[1..], x);
      assert m == [m[0]] + m[1..];
    }
  }

  lemma {:induction false} WithoutMiddle(l: seq<Inode>, x: Inode, r: seq<Inode>)
    requires forall y :: y in l || y in r ==> Id(y) != Id(x)
    ensures Without(l + [x] + r, x) == l + r
  {
    WithoutConcat(l + [x], r, x);
    WithoutConcat(l, [x], x);
    WithoutAbsent(l, x);
    WithoutAbsent(r, x);
    assert Without([x], x) == [];
  }

  /** Unique identities, pairwise. */
  lemma {:induction false} UniquePair(m: seq<Inode>, i: nat, j: nat)
    requires UniqueIds(m) && i < |m| && j < |m| && Id(m[i]) == Id(m[j])
    ensures i == j
  {}

  lemma {:induction false} UniqueTail(m: seq<Inode>, k: nat)
    requires UniqueIds(m) && k <= |m|
    ensures UniqueIds(m[k..]) && UniqueIds(m[..k])
  {}

  lemma {:induction false} UniqueCons(x: Inode, m: seq<Inode>)
    requires UniqueIds(m) && forall y :: y in m ==> Id(y) != Id(x)
    ensures UniqueIds([x] + m)
  {}

  lemma {:induction false} HeadDiffers(m: seq<Inode>)
    requires UniqueIds(m) && m != []
    ensures forall y :: y in m[1..] ==> Id(y) != Id(m[0])
  {}

  lemma {:induction false} WithoutUnique(m: seq<Inode>, x: Inode)
    requires UniqueIds(m)
    ensures UniqueIds(Without(m, x))
    ensures x in m ==> |Without(m, x)| < |m|
  {
    if m != [] {
      UniqueTail(m, 1);
      WithoutUnique(m[1..], x);
      if Id(m[0]) != Id(x) {
        HeadDiffers(m);
        WithoutMembers(m[1..], x);
        UniqueCons(m[0], Without(m[1..], x));
      }
    }
  }

  /** Every visit keeps the list within capacity and free of repeated slots. */
  lemma {:induction false} TouchKeeps(m: seq<Inode>, n: nat, x: Inode, ok: bool)
    requires UniqueIds(m) && |m| <= n
    ensures UniqueIds(Touch(m, n, x, ok)) && |Touch(m, n, x, ok)| <= n
    ensures x in m ==> Touch(m, n, x, ok) == [x] + Without(m, x)
  {
    WithoutUnique(m, x);
    WithoutMembers(m, x);
    UniqueCons(x, Without(m, x));
    var full := [x] + Without(m, x);
    if |full| > n { UniqueTail(full, n); }
  }

  lemma {:induction false} AfterKeeps(n: nat, vs: seq<Visit>)
    ensures UniqueIds(After(n, vs)) && |After(n, vs)| <= n
  {
    if vs != [] {
      var k := |vs| - 1;
      AfterKeeps(n, vs[..k]);
      TouchKeeps(After(n, vs[..k]), n, vs[k].inode, vs[k].ok);
    }
  }

  // -------------------------------------------------------------- retention

  /** The entries more recent than `x`. */
  function Before(m: seq<Inode>, x: Inode): (r: seq<Inode>)
    requires x in m
    ensures |r| < |m| && r == m[..|r|] && m[|r|] == x
  {
    if m[0] == x then []
    else
      assert x in m[1..];
      [m[0]] + Before(m[1..], x)
  }

  ghost function IdSet(m: seq<Inode>): set<(nat, nat)> {
    set y | y in m :: Id(y)
  }

  /** The inode slots visited by `vs`. */
  ghost function Visited(vs: seq<Visit>): set<(nat, nat)> {
    set v | v in vs :: Id(v.inode)
  }

  lemma {:induction false} IdSetCount(m: seq<Inode>)
    requires UniqueIds(m)
    ensures |IdSet(m)| == |m|
  {
    DistinctCount(Ids(m));
    assert IdSet(m) == set i | i in Ids(m) by {
      forall y | y in m ensures Id(y) in Ids(m) {
        var k :| 0 <= k < |m| && m[k] == y;
        assert Ids(m)[k] == Id(y);
      }
      forall i | i in Ids(m) ensures i in IdSet(m) {
        var k :| 0 <= k < |m| && Ids(m)[k] == i;
        assert m[k] in m;
      }
    }
  }

  lemma {:induction false} BeforeWithout(m: seq<Inode>, x: Inode, y: Inode)
    requires x in m && Id(x) != Id(y)
    ensures x in Without(m, y)
    ensures Before(Without(m, y), x) == Without(Before(m, x), y)
  {
    WithoutMembers(m, y);
    if m[0] != x {
      assert x in m[1..];
      BeforeWithout(m[1..], x, y);
      var b := Before(m[1..], x);
      assert ([m[0]] + b)[1..] == b;
      if Id(m[0]) != Id(y) {
        assert ([m[0]] + Without(m[1..], y))[1..] == Without(m[1..], y);
      }
    }
  }

  /** What stands in front of `x` once another slot `y` has been promoted. */
  function Ahead(m: seq<Inode>, x: Inode, y: Inode): (r: seq<Inode>)
    requires x in m
  {
    [y] + Without(Before(m, x), y)
  }

  lemma {:induction false} AheadIds(m: seq<Inode>, x: Inode, y: Inode)
    requires UniqueIds(m) && x in m
    ensures UniqueIds(Ahead(m, x, y))
    ensures IdSet(Ahead(m, x, y)) == IdSet(Before(m, x)) + {Id(y)}
    ensures |IdSet(Ahead(m, x, y))| == |Ahead(m, x, y)|
  {
    var b := Before(m, x);
    UniqueTail(m, |b|);
    WithoutUnique(b, y);
    WithoutMembers(b, y);
    UniqueCons(y, Without(b, y));
    IdSetCount(Ahead(m, x, y));
  }

  lemma {:induction false} PromotedUnique(m: seq<Inode>, y: Inode)
    requires UniqueIds(m)
    ensures UniqueIds([y] + Without(m, y))
  {
    WithoutUnique(m, y);
    WithoutMembers(m, y);
    UniqueCons(y, Without(m, y));
  }

  lemma {:induction false} BeforePromoted(m: seq<Inode>, x: Inode, y: Inode)
    requires x in m && Id(x) != Id(y)
    ensures x in [y] + Without(m, y)
    ensures Before([y] + Without(m, y), x) == Ahead(m, x, y)
  {
    BeforeWithout(m, x, y);
    assert ([y] + Without(m, y))[1..] == Without(m, y);
  }

  /** A visit to another slot puts that slot in front of `x`, and `x` survives
      exactly when fewer than `n` entries are then in front of it. */
  lemma {:induction false} PromoteOther(m: seq<Inode>, n: nat, x: Inode, y: Inode)
    requires UniqueIds(m) && x in m && Id(x) != Id(y)
    ensures x in Promote(m, n, y) <==> |Ahead(m, x, y)| < n
    ensures x in Promote(m, n, y) ==> Before(Promote(m, n, y), x) == Ahead(m, x, y)
  {
    var full, b := [y] + Without(m, y), Ahead(m, x, y);
    var p := Promote(m, n, y);
    BeforePromoted(m, x, y);
    if |b| < n {
      BeforePrefix(full, p, x);
    } else if x in p {
      var i :| 0 <= i < |p| && p[i] == x;
      PromotedUnique(m, y);
      UniquePair(full, i, |b|);
      assert false;
    }
  }

  lemma {:induction false} BeforePrefix(full: seq<Inode>, p: seq<Inode>, x: Inode)
    requires x in full && p <= full && |Before(full, x)| < |p|
    ensures x in p && Before(p, x) == Before(full, x)
  {
    assert p[|Before(full, x)|] == x;
    if full[0] != x {
      assert x in full[1..];
      assert p[0] == full[0];
      BeforePrefix(full[1..], p[1..], x);
    }
  }

  lemma {:induction false} VisitedSnoc(vs: seq<Visit>, i: nat, j: nat)
    requires i + 1 < j <= |vs|
    ensures Visited(vs[i + 1..j]) == Visited(vs[i + 1..j - 1]) + {Id(vs[j - 1].inode)}
    ensures |Visited(vs[i + 1..j - 1])| <= |Visited(vs[i + 1..j])|
  {
    assert vs[i + 1..j] == vs[i + 1..j - 1] + [vs[j - 1]];
    SubsetCount(Visited(vs[i + 1..j - 1]), Visited(vs[i + 1..j]));
  }

  lemma {:induction false} AfterSnoc(n: nat, vs: seq<Visit>, j: nat)
    requires 0 < j <= |vs|
    ensures After(n, vs[..j]) == Touch(After(n, vs[..j - 1]), n, vs[j - 1].inode, vs[j - 1].ok)
    ensures UniqueIds(After(n, vs[..j - 1])) && |After(n, vs[..j - 1])| <= n
  {
    assert vs[..j][..j - 1] == vs[..j - 1];
    AfterKeeps(n, vs[..j - 1]);
  }

  /** `x` is still listed, behind slots of `u` only. */
  ghost predicate Behind(m: seq<Inode>, x: Inode, u: set<(nat, nat)>) {
    x in m && IdSet(Before(m, x)) <= u
  }

  lemma {:induction false} TouchOther(m: seq<Inode>, n: nat, x: Inode, v: Visit, u: set<(nat, nat)>)
    requires UniqueIds(m) && Behind(m, x, u) && Id(x) != Id(v.inode)
    ensures var u' := u + {Id(v.inode)};
            Behind(Touch(m, n, v.inode, v.ok), x, u') || |u'| >= n
  {
    var y := v.inode;
    if y in m || v.ok {
      PromoteOther(m, n, x, y);
      AheadIds(m, x, y);
      SubsetCount(IdSet(Ahead(m, x, y)), u + {Id(y)});
    } else {
      BeforeWithout(m, x, y);
      WithoutMembers(Before(m, x), y);
    }
  }

  /** Right after its own use, nothing stands in front of `x`. */
  lemma {:induction false} PromotedFirst(m: seq<Inode>, n: nat, x: Inode)
    requires n >= 1
    ensures x in Promote(m, n, x) && Before(Promote(m, n, x), x) == []
  {
    assert Promote(m, n, x)[0] == x;
  }

  /** Position invariant for any run: while only other slots are visited, `x`
      stays listed behind slots visited since, or `n` of those have been seen. */
  lemma {:induction false} Standing(n: nat, vs: seq<Visit>, i: nat, j: nat)
    requires n >= 1 && i < j <= |vs|
    requires vs[i].inode in After(n, vs[..i]) || vs[i].ok
    requires forall k :: i < k < j ==> Id(vs[k].inode) != Id(vs[i].inode)
    ensures || Behind(After(n, vs[..j]), vs[i].inode, Visited(vs[i + 1..j]))
            || |Visited(vs[i + 1..j])| >= n
    decreases j
  {
    AfterSnoc(n, vs, j);
    if j == i + 1 {
      PromotedFirst(After(n, vs[..i]), n, vs[i].inode);
    } else {
      Standing(n, vs, i, j - 1);
      StandingStep(n, vs, i, j);
    }
  }

  lemma {:induction false} StandingStep(n: nat, vs: seq<Visit>, i: nat, j: nat)
    requires i + 1 < j <= |vs| && Id(vs[j - 1].inode) != Id(vs[i].inode)
    requires || Behind(After(n, vs[..j - 1]), vs[i].inode, Visited(vs[i + 1..j - 1]))
             || |Visited(vs[i + 1..j - 1])| >= n
    ensures || Behind(After(n, vs[..j]), vs[i].inode, Visited(vs[i + 1..j]))
            || |Visited(vs[i + 1..j])| >= n
  {
    AfterSnoc(n, vs, j);
    VisitedSnoc(vs, i, j);
    if |Visited(vs[i + 1..j - 1])| < n {
      TouchOther(After(n, vs[..j - 1]), n, vs[i].inode, vs[j - 1], Visited(vs[i + 1..j - 1]));
    }
  }

  /** Retention, for every run and every pattern of refused writes: a slot used
      at step `i` and next visited at step `j` misses only if it was seen with a
      different time in between, or at least `n` other slots were visited. */
  lemma {:induction false} Retention(n: nat, vs: seq<Visit>, i: nat, j: nat)
    requires n >= 1 && i < j < |vs| && vs[j].inode == vs[i].inode
    requires vs[i].inode in After(n, vs[..i]) || vs[i].ok
    requires forall k :: i < k < j ==> vs[k].inode != vs[i].inode
    requires vs[j].inode !in After(n, vs[..j])
    ensures || (exists k :: i < k < j && Id(vs[k].inode) == Id(vs[i].inode))
            || |Visited(vs[i + 1..j])| >= n
  {
    if forall k :: i < k < j ==> Id(vs[k].inode) != Id(vs[i].inode) {
      Standing(n, vs, i, j);
    }
  }

  /** `x` stands right behind the slots of `u`, or is gone because they fill the list. */
  ghost predicate RightBehind(m: seq<Inode>, n: nat, x: Inode, u: set<(nat, nat)>) {
    if |u| < n then x in m && IdSet(Before(m, x)) == u else x !in m
  }

  lemma {:induction false} PromoteExact(m: seq<Inode>, n: nat, x: Inode, y: Inode, u: set<(nat, nat)>)
    requires UniqueIds(m) && RightBehind(m, n, x, u) && Id(x) != Id(y)
    ensures RightBehind(Promote(m, n, y), n, x, u + {Id(y)})
  {
    SubsetCount(u, u + {Id(y)});
    if |u| < n {
      PromoteOther(m, n, x, y);
      AheadIds(m, x, y);
    } else {
      WithoutMembers(m, y);
    }
  }

  /** With no refused write the position is exact. */
  lemma {:induction false} ExactStanding(n: nat, vs: seq<Visit>, i: nat, j: nat)
    requires n >= 1 && i < j <= |vs|
    requires forall k :: i <= k < j ==> vs[k].ok
    requires forall k :: i < k < j ==> Id(vs[k].inode) != Id(vs[i].inode)
    ensures RightBehind(After(n, vs[..j]), n, vs[i].inode, Visited(vs[i + 1..j]))
    decreases j
  {
    AfterSnoc(n, vs, j);
    if j == i + 1 {
      PromotedFirst(After(n, vs[..i]), n, vs[i].inode);
    } else {
      ExactStanding(n, vs, i, j - 1);
      VisitedSnoc(vs, i, j);
      PromoteExact(After(n, vs[..j - 1]), n, vs[i].inode, vs[j - 1].inode, Visited(vs[i + 1..j - 1]));
    }
  }

  /** A slot seen with a different time stays unlisted under the old identity
      until that identity is visited again. */
  lemma {:induction false} StaysGone(n: nat, vs: seq<Visit>, k: nat, j: nat, x: Inode)
    requires k < j <= |vs| && n >= 1
    requires vs[k].inode != x && Id(vs[k].inode) == Id(x)
    requires forall l :: k <= l < j ==> vs[l].inode != x
    ensures x !in After(n, vs[..j])
    decreases j
  {
    assert vs[..j][..j - 1] == vs[..j - 1];
    WithoutMembers(After(n, vs[..j - 1]), vs[j - 1].inode);
    if j > k + 1 {
      StaysGone(n, vs, k, j - 1, x);
    }
  }

  /** The LRU stack-distance law.  In a run without refused writes, a revisit is
      a hit if and only if the slot was not seen with another time since its
      last use and fewer than `n` other slots were visited since. */
  lemma {:induction false} HitIffRecent(n: nat, vs: seq<Visit>, i: nat, j: nat)
    requires n >= 1 && i < j < |vs| && vs[j].inode == vs[i].inode
    requires forall k :: i <= k < j ==> vs[k].ok
    requires forall k :: i < k < j ==> vs[k].inode != vs[i].inode
    ensures vs[j].inode in After(n, vs[..j]) <==>
            && (forall k :: i < k < j ==> Id(vs[k].inode) != Id(vs[i].inode))
            && |Visited(vs[i + 1..j])| < n
  {
    if forall k :: i < k < j ==> Id(vs[k].inode) != Id(vs[i].inode) {
      ExactStanding(n, vs, i, j);
    } else {
      var k :| i < k < j && Id(vs[k].inode) == Id(vs[i].inode);
      StaysGone(n, vs, k, j, vs[i].inode);
    }
  }
}
