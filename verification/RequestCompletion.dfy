/**
  Completion of a request of several chained bios: report the bios that the
  completed bytes reach.
 */
module RequestCompletion {

  const TWO32: int := 0x1_0000_0000

  /** `reported` is the bio's own wish to have its completion traced. */
  datatype Bio = Bio(id: nat, bytes: nat, reported: bool)

  function Total(chain: seq<Bio>): nat {
    if chain == [] then 0 else Total(chain[..|chain| - 1]) + chain[|chain| - 1].bytes
  }

  /** Together with `Total([b]) == b.bytes` this makes it the sum. */
  lemma {:induction false} TotalAdds(a: seq<Bio>, b: seq<Bio>)
    ensures Total(a + b) == Total(a) + Total(b)
    ensures |a| == 1 ==> Total(a) == a[0].bytes
    decreases |b|
  {
    if b == [] {
      assert a + b == a;
    } else {
      var k := |b| - 1;
      TotalAdds(a, b[..k]);
      assert (a + b)[..|a| + k] == a + b[..k];
    }
    if |a| == 1 { assert a[..0] == []; }
  }

  /** `ids` are the ids of those of the first `n` bios that want to be reported,
      in chain order; `at` are their positions. */
  ghost predicate Wanted(chain: seq<Bio>, n: nat, ids: seq<nat>, at: seq<nat>)
    requires n <= |chain|
  {
    && |ids| == |at|
    && (forall i, j :: 0 <= i < j < |at| ==> at[i] < at[j])
    && (forall i :: 0 <= i < |at| ==> at[i] < n && chain[at[i]].reported && ids[i] == chain[at[i]].id)
    && (forall k :: 0 <= k < n && chain[k].reported ==> k in at)
  }

  lemma {:induction false} WantedNext(chain: seq<Bio>, k: nat, ids: seq<nat>, at: seq<nat>)
    requires k < |chain| && Wanted(chain, k, ids, at)
    ensures chain[k].reported ==> Wanted(chain, k + 1, ids + [chain[k].id], at + [k])
    ensures !chain[k].reported ==> Wanted(chain, k + 1, ids, at)
  {
    var more := at + [k];
    assert more[|at|] == k;
    assert forall i :: i in at ==> i in more;
  }

  /** The first `k` bios are the shortest non-empty prefix that holds at least
      `bytes` bytes, or the whole chain if it holds fewer. */
  ghost predicate Reaches(chain: seq<Bio>, bytes: nat, k: nat) {
    && k <= |chain| && (chain != [] ==> k >= 1)
    && (k < |chain| ==> Total(chain[..k]) >= bytes)
    && forall j :: 1 <= j < k ==> Total(chain[..j]) < bytes
  }

  function Min(a: nat, b: nat): nat {
    if a <= b then a else b
  }

  lemma {:induction false} TotalGrows(chain: seq<Bio>, k: nat)
    requires k <= |chain|
    ensures Total(chain[..k]) <= Total(chain)
    decreases |chain|
  {
    var n := |chain| - 1;
    if k <= n {
      TotalGrows(chain[..n], k);
      assert chain[..n][..k] == chain[..k];
    } else {
      assert chain[..k] == chain;
    }
  }

  /** There is only one such prefix. */
  lemma {:induction false} ReachesOnce(chain: seq<Bio>, bytes: nat, k: nat, l: nat)
    requires Reaches(chain, bytes, k) && Reaches(chain, bytes, l)
    ensures k == l
  {}

  /** `_iotrace_block_rq_complete`.  `visited` counts the bios looked at and
      `charged` the bytes taken from the budget, which never goes below zero. */
  method Complete(chain: seq<Bio>, nrBytes: nat) returns (reported: seq<nat>, visited: nat, charged: nat)
    requires nrBytes < TWO32 && forall i :: 0 <= i < |chain| ==> chain[i].bytes < TWO32
    ensures Reaches(chain, nrBytes, visited)
    ensures exists at :: Wanted(chain, visited, reported, at)
    ensures charged == if nrBytes <= Total(chain) then nrBytes else Total(chain)
  {
    reported, visited, charged := [], 0, 0;
    var left: nat := nrBytes;
    ghost var at: seq<nat> := [];
    while visited < |chain|
      invariant visited <= |chain|
      invariant Wanted(chain, visited, reported, at)
      invariant charged == Total(chain[..visited]) && left == nrBytes - charged
      invariant visited > 0 ==> left > 0
      invariant forall j :: 1 <= j <= visited ==> Total(chain[..j]) < nrBytes
    {
      var bio := chain[visited];
      var bytes := Min(bio.bytes, left);
      assert chain[..visited + 1][..visited] == chain[..visited];
      WantedNext(chain, visited, reported, at);
      if bio.reported {
        reported := reported + [bio.id];
        at := at + [visited];
      }
      visited := visited + 1;
      charged := charged + bytes;
      left := left - bytes;
      if left == 0 {
        TotalGrows(chain, visited);
        break;
      }
    }
    assert chain[..|chain|] == chain;
  }
}
