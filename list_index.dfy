/** Python's `list.index(x)`: the position of the first element equal to `x`,
    or a `ValueError` when there is none. The failure is an `Option` here. */
module ListIndex {

  datatype Option<+T> = None | Some(value: T)

  /** `i` is the position of the first occurrence of `x` in `s`. */
  ghost predicate IsFirstIndex<T>(s: seq<T>, x: T, i: nat) {
    i < |s| && s[i] == x && forall j :: 0 <= j < i ==> s[j] != x
  }

  /** No element of `s` occurs twice. The quantifier is instantiated only
      for the pairs of positions a proof names through `DistinctAt`. */
  ghost predicate Distinct<T>(s: seq<T>) {
    forall i, j :: DistinctAt(s, i, j)
  }

  /** The elements at two different positions of `s` differ. */
  ghost predicate DistinctAt<T>(s: seq<T>, i: int, j: int) {
    0 <= i < |s| && 0 <= j < |s| && i != j ==> s[i] != s[j]
  }

  /** First-occurrence linear search, as `list.index` performs it. */
  function IndexOf<T(==)>(s: seq<T>, x: T): (r: Option<nat>)
    ensures r.None? <==> x !in s
    ensures r.Some? ==> IsFirstIndex(s, x, r.value)
  {
    IndexFrom(s, x, 0)
  }

  /** The search from position `from` on, knowing that `x` does not occur
      before it. */
  function IndexFrom<T(==)>(s: seq<T>, x: T, from: nat): (r: Option<nat>)
    requires from <= |s|
    requires forall j :: 0 <= j < from ==> s[j] != x
    ensures r.None? <==> x !in s
    ensures r.Some? ==> from <= r.value && IsFirstIndex(s, x, r.value)
    decreases |s| - from
  {
    if from == |s| then None
    else if s[from] == x then Some(from)
    else IndexFrom(s, x, from + 1)
  }

  /** There is at most one first occurrence. */
  lemma FirstIndexUnique<T>(s: seq<T>, x: T, i: nat, j: nat)
    requires IsFirstIndex(s, x, i) && IsFirstIndex(s, x, j)
    ensures i == j
  {
  }

  /** In a list without duplicates, looking up the element at `k` gives back `k`. */
  lemma IndexOfDistinct<T>(s: seq<T>, k: nat)
    requires Distinct(s) && k < |s|
    ensures IndexOf(s, s[k]) == Some(k)
  {
    var r := IndexOf(s, s[k]);
    assert r.Some?;
    forall j | 0 <= j < k ensures s[j] != s[k] {
      assert DistinctAt(s, j, k);
    }
    assert IsFirstIndex(s, s[k], k);
    FirstIndexUnique(s, s[k], r.value, k);
  }
}
