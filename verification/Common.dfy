/**
  Small shared vocabulary: optional values, kernel error codes, and facts about
  sequences without repeated elements.
 */
module Common {

  datatype Option<+T> = None | Some(value: T)

  const EPERM: int := -1
  const ENOENT: int := -2
  const ENOMEM: int := -12
  const EACCES: int := -13
  const EFAULT: int := -14
  const EINVAL: int := -22
  const ENOSPC: int := -28

  const TWO64: int := 0x1_0000_0000_0000_0000

  /** No two positions of `s` hold the same element. */
  ghost predicate Distinct<T>(s: seq<T>) {
    forall i, j :: 0 <= i < j < |s| ==> s[i] != s[j]
  }

  /** A sequence without repetition has as many elements as positions. */
  lemma {:induction false} DistinctCount<T>(s: seq<T>)
    requires Distinct(s)
    ensures |set x | x in s| == |s|
  {
    if s == [] {
      assert (set x | x in s) == {};
    } else {
      DistinctCount(s[1..]);
      assert (set x | x in s) == {s[0]} + (set x | x in s[1..]);
    }
  }

  lemma {:induction false} SubsetCount<T>(a: set<T>, b: set<T>)
    requires a <= b
    ensures |a| <= |b|
  {
    assert b == a + (b - a);
  }
}
